/** Where statements with a body end, told by the words of their heads and the blocks that are open. */
module SqlBlocks {
  import opened TextLines
  import opened SqlLexer
  import opened SqlStatements
  import opened SqlConservation

  predicate IsWord(t: Token, upper: string) {
    t.kind == Word && t.upper == upper
  }

  // ----- heads -----

  /** How many tokens the head of a trigger takes; zero when the statement is none. */
  function TriggerHead(tokens: seq<Token>): (n: nat)
    ensures n <= |tokens|
  {
    if |tokens| >= 2 && IsWord(tokens[0], "CREATE") && IsWord(tokens[1], "TRIGGER") then 2
    else if |tokens| >= 3 && IsWord(tokens[0], "CREATE")
            && (IsWord(tokens[1], "TEMP") || IsWord(tokens[1], "TEMPORARY"))
            && IsWord(tokens[2], "TRIGGER") then 3
    else 0
  }

  predicate IsModifier(t: Token) {
    t.kind == Word && t.upper in {"OR", "REPLACE", "EDITIONABLE", "NONEDITIONABLE", "EDITIONING"}
  }

  predicate IsBodyObject(t: Token) {
    t.kind == Word && t.upper in {"FUNCTION", "PROCEDURE", "PACKAGE", "TRIGGER", "TYPE", "LIBRARY", "JAVA"}
  }

  /** DECLARE, BEGIN, or CREATE with an object that has a body, after four modifiers at most. */
  predicate PlsqlHead(tokens: seq<Token>) {
    tokens != [] &&
    (IsWord(tokens[0], "DECLARE") || IsWord(tokens[0], "BEGIN")
     || (IsWord(tokens[0], "CREATE")
         && exists k :: 1 <= k < 6 && ObjectAt(tokens, k)))
  }

  /** The token at `k` names an object with a body, and between it and CREATE stand modifiers. */
  predicate ObjectAt(tokens: seq<Token>, k: nat) {
    k < |tokens| && IsBodyObject(tokens[k]) && forall j | 1 <= j < k :: IsModifier(tokens[j])
  }

  // ----- open blocks -----

  /** The positions of the BEGIN and CASE words after a head of `n` tokens that no END has closed, outermost first. */
  function OpenBlocks(tokens: seq<Token>, n: nat): seq<nat> {
    if |tokens| <= n then []
    else
      var before := OpenBlocks(tokens[..|tokens| - 1], n);
      var last := tokens[|tokens| - 1];
      if IsWord(last, "BEGIN") || IsWord(last, "CASE") then before + [|tokens| - 1]
      else if IsWord(last, "END") && before != [] then before[..|before| - 1]
      else before
  }

  predicate HasBegin(tokens: seq<Token>, n: nat) {
    exists k :: n <= k < |tokens| && IsWord(tokens[k], "BEGIN")
  }

  /**
   * A slash line ends every statement. A semicolon ends none that starts like a PL/SQL block, it ends a trigger when
   * its body has begun and no block in it is open, and it ends any other statement.
   */
  predicate EndsStatement(current: seq<Token>, t: Token, d: Dialect) {
    t.kind == SlashLine ||
    (t.kind == Symbol && t.text == ";"
     && !(d.plsqlBlocks && PlsqlHead(current))
     && (d.triggerBlocks && TriggerHead(current) > 0 ==>
           HasBegin(current, TriggerHead(current)) && OpenBlocks(current, TriggerHead(current)) == []))
  }

  // ----- the splitter's state is that of the open blocks -----

  lemma TriggerHeadExactly(tokens: seq<Token>)
    ensures IsTriggerBlock(tokens) <==> TriggerHead(tokens) > 0
  {
    LeadingThree(tokens);
  }

  lemma LeadingThree(tokens: seq<Token>)
    ensures var words := LeadingWords(tokens, 3);
            && (|words| >= 1 <==> |tokens| >= 1 && tokens[0].kind == Word)
            && (|words| >= 2 <==> |tokens| >= 2 && tokens[0].kind == tokens[1].kind == Word)
            && (|words| >= 3 <==> |tokens| >= 3 && tokens[0].kind == tokens[1].kind == tokens[2].kind == Word)
            && forall i | 0 <= i < |words| :: words[i] == tokens[i].upper
  {
    LeadingWordsAre(tokens, 3);
  }

  /** The leading words are the words in front, up to the first token that is none. */
  lemma {:induction false} LeadingWordsAre(tokens: seq<Token>, count: nat)
    ensures var words := LeadingWords(tokens, count);
            && |words| <= |tokens|
            && (forall i | 0 <= i < |words| :: tokens[i].kind == Word && words[i] == tokens[i].upper)
            && (|words| < count && |words| < |tokens| ==> tokens[|words|].kind != Word)
  {
    if count > 0 && tokens != [] && tokens[0].kind == Word {
      LeadingWordsAre(tokens[1..], count - 1);
      var rest := LeadingWords(tokens[1..], count - 1);
      assert forall i | 0 <= i < |rest| :: tokens[1..][i] == tokens[i + 1];
    }
  }

  predicate WordsAt(words: seq<string>, k: nat) {
    k < |words| && words[k] in BLOCK_OBJECTS && forall j | 0 <= j < k :: words[j] in BLOCK_MODIFIERS
  }

  lemma {:induction false} CreatesExactly(words: seq<string>)
    ensures CreatesBlock(words) <==> exists k: nat :: WordsAt(words, k)
  {
    if words != [] && words[0] in BLOCK_MODIFIERS {
      CreatesExactly(words[1..]);
      if k: nat :| WordsAt(words[1..], k) {
        assert forall j | 1 <= j < k + 1 :: words[j] == words[1..][j - 1];
        assert WordsAt(words, k + 1);
      }
      if k: nat :| WordsAt(words, k) {
        assert k > 0;
        assert forall j | 0 <= j < k - 1 :: words[1..][j] == words[j + 1];
        assert WordsAt(words[1..], k - 1);
      }
    } else if words != [] && words[0] in BLOCK_OBJECTS {
      assert WordsAt(words, 0);
    }
  }

  lemma ObjectOfWords(tokens: seq<Token>, k: nat)
    requires tokens != [] && IsWord(tokens[0], "CREATE")
    ensures k < 5 && ObjectAt(tokens, k + 1) <==> WordsAt(LeadingWords(tokens, 6)[1..], k)
  {
    LeadingWordsAre(tokens, 6);
    var words := LeadingWords(tokens, 6);
    hide LeadingWords;
    if k < 5 && ObjectAt(tokens, k + 1) {
      forall j | 1 <= j < k + 1
        ensures tokens[j].kind == Word
      {
        assert IsModifier(tokens[j]);
      }
      assert k + 1 < |words|;
      forall j | 0 <= j < k
        ensures words[1..][j] in BLOCK_MODIFIERS
      {
        assert IsModifier(tokens[j + 1]);
      }
    }
    if WordsAt(words[1..], k) {
      forall j | 1 <= j < k + 1
        ensures IsModifier(tokens[j])
      {
        assert words[1..][j - 1] in BLOCK_MODIFIERS;
      }
    }
  }

  lemma PlsqlHeadExactly(tokens: seq<Token>)
    ensures IsPlsqlBlock(tokens) <==> PlsqlHead(tokens)
  {
    LeadingWordsAre(tokens, 6);
    var words := LeadingWords(tokens, 6);
    hide LeadingWords, ObjectAt, WordsAt, CreatesBlock;
    if words != [] && words[0] == "CREATE" {
      CreatesExactly(words[1..]);
      if k: nat :| WordsAt(words[1..], k) {
        ObjectOfWords(tokens, k);
      }
      if k: nat :| 1 <= k < 6 && ObjectAt(tokens, k) {
        ObjectOfWords(tokens, k - 1);
      }
    }
  }

  lemma HeadOfPrefix(tokens: seq<Token>, k: nat)
    requires k <= |tokens| && TriggerHead(tokens) > 0
    ensures TriggerHead(tokens[..k]) == if k < TriggerHead(tokens) then 0 else TriggerHead(tokens)
  {
  }

  lemma NestingBeforeHead(tokens: seq<Token>, d: Dialect)
    requires tokens == [] || TriggerHead(tokens[..|tokens| - 1]) == 0
    ensures Nesting(tokens, d) == BlockState(0, false)
    decreases |tokens|
  {
    if tokens != [] {
      var before := tokens[..|tokens| - 1];
      TriggerHeadExactly(before);
      hide IsTriggerBlock, TriggerHead;
      NestingBeforeHead(before, d);
    }
  }

  lemma HeadGrows(tokens: seq<Token>, t: Token)
    requires TriggerHead(tokens) > 0
    ensures TriggerHead(tokens + [t]) == TriggerHead(tokens)
  {
  }

  /** After the head the splitter's depth counts the open blocks, and its flag says whether a BEGIN has come. */
  lemma {:induction false} NestingIsOpenBlocks(tokens: seq<Token>, d: Dialect)
    requires d.triggerBlocks && TriggerHead(tokens) > 0
    ensures var n := TriggerHead(tokens);
            Nesting(tokens, d) == BlockState(|OpenBlocks(tokens, n)|, HasBegin(tokens, n))
  {
    var n, before, last := TriggerHead(tokens), tokens[..|tokens| - 1], tokens[|tokens| - 1];
    HeadOfPrefix(tokens, |before|);
    if |tokens| == n {
      NestingBeforeHead(tokens, d);
    } else {
      NestingIsOpenBlocks(before, d);
      TriggerHeadExactly(before);
      BeginOfLast(tokens, n);
      hide IsTriggerBlock, TriggerHead, HasBegin;
    }
  }

  lemma BeginOfLast(tokens: seq<Token>, n: nat)
    requires n < |tokens|
    ensures HasBegin(tokens, n)
            <==> HasBegin(tokens[..|tokens| - 1], n) || IsWord(tokens[|tokens| - 1], "BEGIN")
  {
    var before := tokens[..|tokens| - 1];
    if k :| n <= k < |tokens| && IsWord(tokens[k], "BEGIN") {
      assert k < |before| ==> before[k] == tokens[k];
    }
    if k :| n <= k < |before| && IsWord(before[k], "BEGIN") {
      assert tokens[k] == before[k];
    }
  }

  /** The splitter separates statements exactly where they end. */
  lemma SeparatesExactly(current: seq<Token>, t: Token, d: Dialect)
    ensures Separates(current, t, d) <==> EndsStatement(current, t, d)
  {
    TriggerHeadExactly(current);
    PlsqlHeadExactly(current);
    if d.triggerBlocks && TriggerHead(current) > 0 {
      NestingIsOpenBlocks(current, d);
    }
    hide IsTriggerBlock, IsPlsqlBlock, TriggerHead, PlsqlHead, Nesting, OpenBlocks, HasBegin;
  }

  // ----- the statements of a list of tokens -----

  predicate IsSeparator(t: Token) {
    t.kind == SlashLine || (t.kind == Symbol && t.text == ";")
  }

  predicate SeparatorsBetween(tokens: seq<Token>, i: nat, j: nat)
    requires i <= j <= |tokens|
  {
    forall k | i <= k < j :: IsSeparator(tokens[k])
  }

  /** No token of the run ends the statement that starts with it. */
  predicate Unended(tokens: seq<Token>, from: nat, to: nat, d: Dialect)
    requires from <= to <= |tokens|
  {
    forall k | from <= k < to :: !EndsStatement(tokens[from..k], tokens[k], d)
  }

  /** From token `i` on, the ranges are the runs between separators that none but the token behind them ends. */
  predicate SplitsInto(tokens: seq<Token>, i: nat, ranges: seq<Range>, d: Dialect)
    requires i <= |tokens|
    decreases |ranges|
  {
    if ranges == [] then SeparatorsBetween(tokens, i, |tokens|)
    else
      var r := ranges[0];
      && i <= r.from < r.to <= |tokens|
      && SeparatorsBetween(tokens, i, r.from)
      && Unended(tokens, r.from, r.to, d)
      && (r.to < |tokens| ==> EndsStatement(tokens[r.from..r.to], tokens[r.to], d))
      && SplitsInto(tokens, if r.to < |tokens| then r.to + 1 else r.to, ranges[1..], d)
  }

  lemma NothingEndsAtOnce(t: Token, d: Dialect)
    ensures EndsStatement([], t, d) <==> IsSeparator(t)
  {
  }

  lemma EndsOnlyWithSeparators(current: seq<Token>, t: Token, d: Dialect)
    ensures EndsStatement(current, t, d) ==> IsSeparator(t)
  {
  }

  lemma SplitStep(tokens: seq<Token>, start: nat, i: nat, d: Dialect)
    requires start <= i < |tokens|
    ensures SplitRanges(tokens, start, i, d)
            == if EndsStatement(tokens[start..i], tokens[i], d)
               then Flushed(start, i) + SplitRanges(tokens, i + 1, i + 1, d)
               else SplitRanges(tokens, start, i + 1, d)
  {
    SeparatesExactly(tokens[start..i], tokens[i], d);
    hide Separates, EndsStatement;
  }

  lemma OneMoreSeparator(tokens: seq<Token>, i: nat, ranges: seq<Range>, d: Dialect)
    requires i < |tokens| && IsSeparator(tokens[i]) && SplitsInto(tokens, i + 1, ranges, d)
    ensures SplitsInto(tokens, i, ranges, d)
  {
    hide IsSeparator, Unended, EndsStatement;
  }

  lemma OneMoreRange(tokens: seq<Token>, from: nat, to: nat, rest: seq<Range>, d: Dialect)
    requires from < to <= |tokens| && Unended(tokens, from, to, d)
    requires to < |tokens| ==> EndsStatement(tokens[from..to], tokens[to], d) && SplitsInto(tokens, to + 1, rest, d)
    requires to == |tokens| ==> rest == []
    ensures SplitsInto(tokens, from, [Range(from, to)] + rest, d)
  {
    hide IsSeparator, Unended, EndsStatement;
    var ranges := [Range(from, to)] + rest;
    assert ranges[0] == Range(from, to) && ranges[1..] == rest;
  }

  lemma {:induction false} SplitSplits(tokens: seq<Token>, start: nat, i: nat, d: Dialect)
    requires start <= i <= |tokens| && Unended(tokens, start, i, d)
    ensures SplitsInto(tokens, start, SplitRanges(tokens, start, i, d), d)
    decreases |tokens| - i
  {
    hide EndsStatement, SplitsInto, SplitRanges;
    if i == |tokens| {
      SplitEnds(tokens, start, d);
    } else {
      SplitStep(tokens, start, i, d);
      if EndsStatement(tokens[start..i], tokens[i], d) {
        SplitSplits(tokens, i + 1, i + 1, d);
        EndsOnlyWithSeparators(tokens[start..i], tokens[i], d);
        if start < i {
          OneMoreRange(tokens, start, i, SplitRanges(tokens, i + 1, i + 1, d), d);
        } else {
          OneMoreSeparator(tokens, i, SplitRanges(tokens, i + 1, i + 1, d), d);
          assert [] + SplitRanges(tokens, i + 1, i + 1, d) == SplitRanges(tokens, i + 1, i + 1, d);
        }
      } else {
        SplitSplits(tokens, start, i + 1, d);
      }
    }
  }

  lemma SplitEnds(tokens: seq<Token>, start: nat, d: Dialect)
    requires start <= |tokens| && Unended(tokens, start, |tokens|, d)
    ensures SplitsInto(tokens, start, SplitRanges(tokens, start, |tokens|, d), d)
  {
    hide EndsStatement, Unended;
    if start < |tokens| {
      OneMoreRange(tokens, start, |tokens|, [], d);
      assert [Range(start, |tokens|)] + [] == [Range(start, |tokens|)];
    }
  }

  lemma {:induction false} ReadUnended(tokens: seq<Token>, from: nat, i: nat, to: nat, d: Dialect)
    requires from <= i <= to <= |tokens| && Unended(tokens, from, to, d)
    ensures SplitRanges(tokens, from, i, d) == SplitRanges(tokens, from, to, d)
    decreases |tokens| - i
  {
    hide EndsStatement, SplitRanges;
    if i < to {
      SplitStep(tokens, from, i, d);
      ReadUnended(tokens, from, i + 1, to, d);
    }
  }

  lemma {:induction false} SplitIsOnly(tokens: seq<Token>, i: nat, ranges: seq<Range>, d: Dialect)
    requires i <= |tokens| && SplitsInto(tokens, i, ranges, d)
    ensures SplitRanges(tokens, i, i, d) == ranges
    decreases |tokens| - i
  {
    hide EndsStatement, Unended, SplitRanges;
    if i == |tokens| {
      NoRangeLeft(tokens, d);
    } else if ranges == [] || i < ranges[0].from {
      SplitStep(tokens, i, i, d);
      assert tokens[i..i] == [];
      NothingEndsAtOnce(tokens[i], d);
      SplitIsOnly(tokens, i + 1, ranges, d);
      assert [] + ranges == ranges;
    } else {
      var r := ranges[0];
      ReadUnended(tokens, i, i, r.to, d);
      if r.to < |tokens| {
        SplitStep(tokens, i, r.to, d);
        SplitIsOnly(tokens, r.to + 1, ranges[1..], d);
        assert ranges == [r] + ranges[1..];
      } else {
        LastRange(tokens, i, d);
        SplitIsOnly(tokens, r.to, ranges[1..], d);
        NoRangeLeft(tokens, d);
        assert ranges == [r] + [];
      }
    }
  }

  lemma NoRangeLeft(tokens: seq<Token>, d: Dialect)
    ensures SplitRanges(tokens, |tokens|, |tokens|, d) == []
  {
  }

  lemma LastRange(tokens: seq<Token>, from: nat, d: Dialect)
    requires from < |tokens|
    ensures SplitRanges(tokens, from, |tokens|, d) == [Range(from, |tokens|)]
  {
  }

  /** The splitter gives exactly the one list of ranges that the ends of statements determine. */
  lemma SplitsExactly(tokens: seq<Token>, ranges: seq<Range>, d: Dialect)
    ensures SplitRanges(tokens, 0, 0, d) == ranges <==> SplitsInto(tokens, 0, ranges, d)
  {
    hide SplitRanges, SplitsInto;
    SplitSplits(tokens, 0, 0, d);
    if SplitsInto(tokens, 0, ranges, d) {
      SplitIsOnly(tokens, 0, ranges, d);
    }
  }

  // ----- well-nested bodies -----

  /** A token of its own, or a block from BEGIN or CASE to END. */
  datatype Part = Plain(token: Token) | Block(opener: Token, inner: seq<Part>, closer: Token)

  function Flat(parts: seq<Part>): seq<Token> {
    if parts == [] then [] else FlatPart(parts[0]) + Flat(parts[1..])
  }

  function FlatPart(part: Part): seq<Token> {
    match part
    case Plain(token) => [token]
    case Block(opener, inner, closer) => [opener] + Flat(inner) + [closer]
  }

  /** Plain tokens are anything but slash lines and the words of blocks, semicolons included. */
  predicate WellNested(parts: seq<Part>) {
    forall i | 0 <= i < |parts| ::
      match parts[i]
      case Plain(t) => t.kind != SlashLine && !IsWord(t, "BEGIN") && !IsWord(t, "CASE") && !IsWord(t, "END")
      case Block(opener, inner, closer) =>
        (IsWord(opener, "BEGIN") || IsWord(opener, "CASE")) && IsWord(closer, "END") && WellNested(inner)
  }

  /** None of the blocks is opened by BEGIN. */
  predicate NoBegin(parts: seq<Part>) {
    forall i | 0 <= i < |parts| && parts[i].Block? :: !IsWord(parts[i].opener, "BEGIN") && NoBegin(parts[i].inner)
  }

  /** The tokens up to `i` are a trigger head of `n` tokens and more, and a semicolon would not end them. */
  predicate Inside(tokens: seq<Token>, i: nat, n: nat) {
    && 0 < n <= i <= |tokens| && TriggerHead(tokens[..i]) == n
    && (OpenBlocks(tokens[..i], n) != [] || !HasBegin(tokens[..i], n))
  }

  lemma OneMoreToken(tokens: seq<Token>, i: nat, n: nat)
    requires 0 < n <= i < |tokens| && TriggerHead(tokens[..i]) == n
    ensures TriggerHead(tokens[..i + 1]) == n
    ensures HasBegin(tokens[..i + 1], n) <==> HasBegin(tokens[..i], n) || IsWord(tokens[i], "BEGIN")
    ensures OpenBlocks(tokens[..i + 1], n)
            == var before := OpenBlocks(tokens[..i], n);
               if IsWord(tokens[i], "BEGIN") || IsWord(tokens[i], "CASE") then before + [i]
               else if IsWord(tokens[i], "END") && before != [] then before[..|before| - 1]
               else before
  {
    assert tokens[..i + 1][..i] == tokens[..i];
    BeginOfLast(tokens[..i + 1], n);
    hide HasBegin;
  }

  lemma KeptInside(tokens: seq<Token>, i: nat, n: nat, d: Dialect)
    requires i < |tokens| && Inside(tokens, i, n) && tokens[i].kind != SlashLine && d.triggerBlocks
    ensures SplitRanges(tokens, 0, i, d) == SplitRanges(tokens, 0, i + 1, d)
  {
    hide OpenBlocks, HasBegin, TriggerHead, PlsqlHead, SplitRanges;
    assert tokens[0..i] == tokens[..i];
    SplitStep(tokens, 0, i, d);
  }

  /** What reading parts leaves as it was. */
  predicate Passed(tokens: seq<Token>, i: nat, j: nat, n: nat, d: Dialect) {
    && i <= j <= |tokens| && 0 < n <= i
    && SplitRanges(tokens, 0, i, d) == SplitRanges(tokens, 0, j, d)
    && TriggerHead(tokens[..j]) == n
    && OpenBlocks(tokens[..j], n) == OpenBlocks(tokens[..i], n)
    && (HasBegin(tokens[..i], n) ==> HasBegin(tokens[..j], n))
  }

  lemma PlainPart(tokens: seq<Token>, i: nat, n: nat, t: Token, d: Dialect)
    requires i < |tokens| && tokens[i] == t && Inside(tokens, i, n) && d.triggerBlocks && WellNested([Plain(t)])
    ensures Passed(tokens, i, i + 1, n, d)
    ensures HasBegin(tokens[..i + 1], n) <==> HasBegin(tokens[..i], n)
  {
    assert [Plain(t)][0] == Plain(t);
    OneMoreToken(tokens, i, n);
    KeptInside(tokens, i, n, d);
    hide OpenBlocks, HasBegin, TriggerHead, SplitRanges;
  }

  /** The flattened parts stand between `i` and `j`. */
  predicate FlatAt(tokens: seq<Token>, i: nat, j: nat, flat: seq<Token>) {
    i <= j <= |tokens| && j == i + |flat| && tokens[i..j] == flat
  }

  /** Reading a well-nested part leaves the open blocks as they were, and nothing in it ends the statement. */
  lemma {:induction false} ReadPart(tokens: seq<Token>, i: nat, j: nat, n: nat, part: Part, d: Dialect)
    requires Inside(tokens, i, n) && d.triggerBlocks && WellNested([part]) && FlatAt(tokens, i, j, FlatPart(part))
    ensures Passed(tokens, i, j, n, d)
    ensures NoBegin([part]) ==> (HasBegin(tokens[..j], n) <==> HasBegin(tokens[..i], n))
    decreases part, 1
  {
    hide OpenBlocks, HasBegin, TriggerHead, SplitRanges, WellNested, NoBegin, Inside, Passed;
    match part
    case Plain(t) =>
      assert tokens[i] == tokens[i..j][0];
      PlainPart(tokens, i, n, t, d);
    case Block(opener, inner, closer) =>
      BlockLayout(tokens, i, j - 1, opener, inner, closer);
      hide FlatAt;
      ReadBlock(tokens, i, j - 1, n, opener, inner, closer, d);
  }

  lemma SliceOfSlice(tokens: seq<Token>, p: nat, e: nat, i: nat, j: nat)
    requires p <= e <= |tokens| && i <= j <= e - p
    ensures tokens[p + i..p + j] == tokens[p..e][i..j]
  {
    var a, b := tokens[p + i..p + j], tokens[p..e][i..j];
    assert |a| == |b| && forall k | 0 <= k < |a| :: a[k] == b[k];
  }

  lemma BlockLayout(tokens: seq<Token>, i: nat, j: nat, opener: Token, inner: seq<Part>, closer: Token)
    requires FlatAt(tokens, i, j + 1, [opener] + Flat(inner) + [closer])
    ensures i < j < |tokens| && tokens[i] == opener && FlatAt(tokens, i + 1, j, Flat(inner)) && tokens[j] == closer
  {
    var all := tokens[i..j + 1];
    assert tokens[i] == all[0] && tokens[j] == all[1 + |Flat(inner)|];
    SliceOfSlice(tokens, i, j + 1, 1, 1 + |Flat(inner)|);
    assert all[1..1 + |Flat(inner)|] == Flat(inner);
  }

  lemma {:induction false} ReadBlock(tokens: seq<Token>, i: nat, j: nat, n: nat, opener: Token, inner: seq<Part>,
                                     closer: Token, d: Dialect)
    requires Inside(tokens, i, n) && d.triggerBlocks && WellNested([Block(opener, inner, closer)])
    requires i < j < |tokens| && tokens[i] == opener && FlatAt(tokens, i + 1, j, Flat(inner)) && tokens[j] == closer
    ensures Passed(tokens, i, j + 1, n, d)
    ensures NoBegin([Block(opener, inner, closer)]) ==> (HasBegin(tokens[..j + 1], n) <==> HasBegin(tokens[..i], n))
    decreases inner, 2
  {
    assert [Block(opener, inner, closer)][0] == Block(opener, inner, closer);
    assert WellNested(inner)
           && (NoBegin([Block(opener, inner, closer)]) ==> NoBegin(inner) && !IsWord(opener, "BEGIN"));
    hide OpenBlocks, HasBegin, TriggerHead, SplitRanges, WellNested, NoBegin, FlatAt, Inside, Passed;
    OpenBlock(tokens, i, n, d);
    ReadParts(tokens, i + 1, j, n, inner, d);
    CloseBlock(tokens, i, j, n, d);
  }

  lemma OpenBlock(tokens: seq<Token>, i: nat, n: nat, d: Dialect)
    requires i < |tokens| && Inside(tokens, i, n) && d.triggerBlocks
    requires IsWord(tokens[i], "BEGIN") || IsWord(tokens[i], "CASE")
    ensures Inside(tokens, i + 1, n) && SplitRanges(tokens, 0, i, d) == SplitRanges(tokens, 0, i + 1, d)
    ensures OpenBlocks(tokens[..i + 1], n) == OpenBlocks(tokens[..i], n) + [i]
    ensures HasBegin(tokens[..i + 1], n) <==> HasBegin(tokens[..i], n) || IsWord(tokens[i], "BEGIN")
  {
    hide OpenBlocks, HasBegin, TriggerHead, SplitRanges;
    OneMoreToken(tokens, i, n);
    KeptInside(tokens, i, n, d);
  }

  lemma CloseBlock(tokens: seq<Token>, i: nat, j: nat, n: nat, d: Dialect)
    requires i < j < |tokens| && Inside(tokens, i, n) && Passed(tokens, i + 1, j, n, d) && d.triggerBlocks
    requires SplitRanges(tokens, 0, i, d) == SplitRanges(tokens, 0, i + 1, d)
    requires OpenBlocks(tokens[..i + 1], n) == OpenBlocks(tokens[..i], n) + [i]
    requires HasBegin(tokens[..i], n) ==> HasBegin(tokens[..i + 1], n)
    requires IsWord(tokens[j], "END")
    ensures Passed(tokens, i, j + 1, n, d) && (HasBegin(tokens[..j + 1], n) <==> HasBegin(tokens[..j], n))
  {
    hide OpenBlocks, HasBegin, TriggerHead, SplitRanges;
    OneMoreToken(tokens, j, n);
    KeptInside(tokens, j, n, d);
    var open := OpenBlocks(tokens[..i], n);
    assert (open + [i])[..|open|] == open;
  }

  lemma FirstPart(parts: seq<Part>)
    requires parts != []
    ensures WellNested(parts) <==> WellNested([parts[0]]) && WellNested(parts[1..])
    ensures NoBegin(parts) <==> NoBegin([parts[0]]) && NoBegin(parts[1..])
  {
    assert [parts[0]][0] == parts[0];
    assert forall i | 0 <= i < |parts| :: i == 0 || parts[i] == parts[1..][i - 1];
    assert forall i | 0 <= i < |parts[1..]| :: parts[1..][i] == parts[i + 1];
  }

  lemma PartLayout(tokens: seq<Token>, i: nat, j: nat, parts: seq<Part>)
    requires parts != [] && FlatAt(tokens, i, j, Flat(parts))
    ensures var k := i + |FlatPart(parts[0])|;
            FlatAt(tokens, i, k, FlatPart(parts[0])) && FlatAt(tokens, k, j, Flat(parts[1..]))
  {
    FlatFirst(parts);
    hide Flat, FlatPart, FlatAt;
    TwoRuns(tokens, i, i + |FlatPart(parts[0])|, j, FlatPart(parts[0]), Flat(parts[1..]));
  }

  lemma TwoRuns(tokens: seq<Token>, i: nat, k: nat, j: nat, a: seq<Token>, b: seq<Token>)
    requires FlatAt(tokens, i, j, a + b) && k == i + |a|
    ensures FlatAt(tokens, i, k, a) && FlatAt(tokens, k, j, b)
  {
    var all := tokens[i..j];
    assert forall x | 0 <= x < |a| :: tokens[i..k][x] == all[x] == a[x];
    assert forall x | 0 <= x < |b| :: tokens[k..j][x] == all[|a| + x] == b[x];
  }

  lemma FlatFirst(parts: seq<Part>)
    requires parts != []
    ensures Flat(parts) == FlatPart(parts[0]) + Flat(parts[1..])
  {
  }

  lemma StillInside(tokens: seq<Token>, i: nat, k: nat, n: nat, d: Dialect)
    requires Inside(tokens, i, n) && Passed(tokens, i, k, n, d)
    requires OpenBlocks(tokens[..i], n) != [] || (HasBegin(tokens[..k], n) <==> HasBegin(tokens[..i], n))
    ensures Inside(tokens, k, n) && OpenBlocks(tokens[..k], n) == OpenBlocks(tokens[..i], n)
  {
    hide OpenBlocks, HasBegin, TriggerHead, SplitRanges;
  }

  lemma PassedTwice(tokens: seq<Token>, i: nat, k: nat, j: nat, n: nat, d: Dialect)
    requires Passed(tokens, i, k, n, d) && Passed(tokens, k, j, n, d)
    ensures Passed(tokens, i, j, n, d)
  {
    hide OpenBlocks, HasBegin, TriggerHead, SplitRanges;
  }

  lemma NoPart(tokens: seq<Token>, i: nat, j: nat, n: nat, d: Dialect)
    requires Inside(tokens, i, n) && FlatAt(tokens, i, j, Flat([]))
    ensures i == j && Passed(tokens, i, j, n, d)
  {
    hide OpenBlocks, HasBegin, TriggerHead, SplitRanges;
  }

  lemma {:induction false} ReadParts(tokens: seq<Token>, i: nat, j: nat, n: nat, parts: seq<Part>, d: Dialect)
    requires Inside(tokens, i, n) && d.triggerBlocks && WellNested(parts) && FlatAt(tokens, i, j, Flat(parts))
    requires OpenBlocks(tokens[..i], n) != [] || NoBegin(parts)
    ensures Passed(tokens, i, j, n, d)
    ensures NoBegin(parts) ==> (HasBegin(tokens[..j], n) <==> HasBegin(tokens[..i], n))
    decreases parts, 1
  {
    hide OpenBlocks, HasBegin, TriggerHead, SplitRanges, Flat, FlatPart, WellNested, NoBegin, Inside, Passed;
    if parts != [] {
      FirstPart(parts);
      PartLayout(tokens, i, j, parts);
      var k := i + |FlatPart(parts[0])|;
      ReadPart(tokens, i, k, n, parts[0], d);
      StillInside(tokens, i, k, n, d);
      ReadParts(tokens, k, j, n, parts[1..], d);
      PassedTwice(tokens, i, k, j, n, d);
    } else {
      NoPart(tokens, i, j, n, d);
    }
  }

  // ----- whole triggers and PL/SQL blocks -----

  /** The tokens are a trigger head written out: CREATE TRIGGER, CREATE TEMP TRIGGER or CREATE TEMPORARY TRIGGER. */
  predicate IsTriggerHead(head: seq<Token>) {
    && (|head| == 2 || |head| == 3) && IsWord(head[0], "CREATE") && IsWord(head[|head| - 1], "TRIGGER")
    && (|head| == 3 ==> IsWord(head[1], "TEMP") || IsWord(head[1], "TEMPORARY"))
  }

  lemma HeadIsInside(tokens: seq<Token>, head: seq<Token>)
    requires IsTriggerHead(head) && |head| <= |tokens| && tokens[..|head|] == head
    ensures Inside(tokens, |head|, |head|)
    ensures OpenBlocks(head, |head|) == [] && !HasBegin(head, |head|)
  {
  }

  lemma ReadHead(tokens: seq<Token>, head: seq<Token>, d: Dialect)
    requires IsTriggerHead(head) && |head| <= |tokens| && tokens[..|head|] == head
    ensures SplitRanges(tokens, 0, 0, d) == SplitRanges(tokens, 0, |head|, d)
  {
    hide SplitRanges, EndsStatement;
    forall k | 0 <= k < |head|
      ensures !EndsStatement(tokens[0..k], tokens[k], d)
    {
      assert tokens[k] == head[k];
      EndsOnlyWithSeparators(tokens[0..k], tokens[k], d);
    }
    ReadUnended(tokens, 0, 0, |head|, d);
  }

  /** The tokens of a trigger whose body is well nested. */
  function TriggerTokens(head: seq<Token>, before: seq<Part>, begin: Token, body: seq<Part>, end: Token): seq<Token> {
    head + Flat(before) + ([begin] + Flat(body) + [end])
  }

  lemma TriggerLayout(tokens: seq<Token>, head: seq<Token>, before: seq<Part>, begin: Token, body: seq<Part>,
                      end: Token)
    requires TriggerTokens(head, before, begin, body, end) <= tokens
    ensures var i := |head| + |Flat(before)|;
            var j := |TriggerTokens(head, before, begin, body, end)| - 1;
            && i < j < |tokens| && tokens[..|head|] == head && FlatAt(tokens, |head|, i, Flat(before))
            && tokens[i] == begin && FlatAt(tokens, i + 1, j, Flat(body)) && tokens[j] == end
  {
    hide Flat, FlatAt;
    var i, j := |head| + |Flat(before)|, |TriggerTokens(head, before, begin, body, end)| - 1;
    PrefixIsFlat(tokens, TriggerTokens(head, before, begin, body, end));
    TwoRuns(tokens, 0, i, j + 1, head + Flat(before), [begin] + Flat(body) + [end]);
    TwoRuns(tokens, 0, |head|, i, head, Flat(before));
    BlockLayout(tokens, i, j, begin, body, end);
    FlatPrefix(tokens, head);
  }

  lemma PrefixIsFlat(tokens: seq<Token>, all: seq<Token>)
    requires all <= tokens
    ensures FlatAt(tokens, 0, |all|, all)
  {
  }

  lemma FlatPrefix(tokens: seq<Token>, head: seq<Token>)
    requires FlatAt(tokens, 0, |head|, head)
    ensures |head| <= |tokens| && tokens[..|head|] == head
  {
  }

  /**
   * A trigger with a well-nested body, CASE expressions and semicolons included, is one statement: the semicolon behind
   * its last END ends it, and none before does.
   */
  lemma TriggerIsOneStatement(tokens: seq<Token>, head: seq<Token>, before: seq<Part>, begin: Token, body: seq<Part>,
                              end: Token, d: Dialect)
    requires d.triggerBlocks && !d.plsqlBlocks && IsTriggerHead(head)
    requires WellNested(before) && NoBegin(before) && WellNested(body) && IsWord(begin, "BEGIN") && IsWord(end, "END")
    requires TriggerTokens(head, before, begin, body, end) <= tokens
    requires var n := |TriggerTokens(head, before, begin, body, end)|;
             n < |tokens| ==> tokens[n].kind == Symbol && tokens[n].text == ";"
    ensures var n := |TriggerTokens(head, before, begin, body, end)|;
            SplitRanges(tokens, 0, 0, d)
            == [Range(0, n)] + (if n < |tokens| then SplitRanges(tokens, n + 1, n + 1, d) else [])
  {
    hide OpenBlocks, HasBegin, TriggerHead, SplitRanges, Flat, WellNested, NoBegin, TriggerTokens, IsTriggerHead,
         Inside,
         FlatAt;
    var i, j := |head| + |Flat(before)|, |TriggerTokens(head, before, begin, body, end)| - 1;
    TriggerLayout(tokens, head, before, begin, body, end);
    HeadLength(head);
    ReadToBegin(tokens, i, head, before, d);
    ReadBody(tokens, i, j, |head|, body, d);
    EndOfTrigger(tokens, j + 1, |head|, d);
  }

  lemma ReadToBegin(tokens: seq<Token>, i: nat, head: seq<Token>, before: seq<Part>, d: Dialect)
    requires d.triggerBlocks && IsTriggerHead(head) && WellNested(before) && NoBegin(before)
    requires |head| <= |tokens| && tokens[..|head|] == head && FlatAt(tokens, |head|, i, Flat(before))
    ensures Inside(tokens, i, |head|) && OpenBlocks(tokens[..i], |head|) == [] && !HasBegin(tokens[..i], |head|)
    ensures SplitRanges(tokens, 0, 0, d) == SplitRanges(tokens, 0, i, d)
  {
    hide OpenBlocks, HasBegin, TriggerHead, SplitRanges, Flat, WellNested, NoBegin, IsTriggerHead, FlatAt;
    HeadLength(head);
    HeadIsInside(tokens, head);
    ReadHead(tokens, head, d);
    ReadParts(tokens, |head|, i, |head|, before, d);
  }

  lemma ReadBody(tokens: seq<Token>, i: nat, j: nat, n: nat, body: seq<Part>, d: Dialect)
    requires d.triggerBlocks && WellNested(body) && Inside(tokens, i, n) && OpenBlocks(tokens[..i], n) == []
    requires i < j < |tokens| && IsWord(tokens[i], "BEGIN") && IsWord(tokens[j], "END")
    requires FlatAt(tokens, i + 1, j, Flat(body))
    ensures TriggerHead(tokens[..j + 1]) == n && OpenBlocks(tokens[..j + 1], n) == [] && HasBegin(tokens[..j + 1], n)
    ensures SplitRanges(tokens, 0, i, d) == SplitRanges(tokens, 0, j + 1, d)
  {
    hide OpenBlocks, HasBegin, TriggerHead, SplitRanges, Flat, WellNested, NoBegin, FlatAt;
    OpenBlock(tokens, i, n, d);
    ReadParts(tokens, i + 1, j, n, body, d);
    CloseBlock(tokens, i, j, n, d);
    PassedMeans(tokens, i, j, n, d);
  }

  lemma PassedMeans(tokens: seq<Token>, i: nat, j: nat, n: nat, d: Dialect)
    requires Passed(tokens, i, j + 1, n, d) && Passed(tokens, i + 1, j, n, d)
    ensures HasBegin(tokens[..i + 1], n) ==> HasBegin(tokens[..j], n)
  {
    hide OpenBlocks, HasBegin, TriggerHead, SplitRanges;
  }

  lemma HeadLength(head: seq<Token>)
    requires IsTriggerHead(head)
    ensures |head| > 0
  {
  }

  lemma EndOfTrigger(tokens: seq<Token>, n: nat, h: nat, d: Dialect)
    requires 0 < h <= n <= |tokens| && TriggerHead(tokens[..n]) == h && d.triggerBlocks && !d.plsqlBlocks
    requires OpenBlocks(tokens[..n], h) == [] && HasBegin(tokens[..n], h)
    requires n < |tokens| ==> tokens[n].kind == Symbol && tokens[n].text == ";"
    ensures SplitRanges(tokens, 0, n, d)
            == [Range(0, n)] + (if n < |tokens| then SplitRanges(tokens, n + 1, n + 1, d) else [])
  {
    hide OpenBlocks, HasBegin, TriggerHead, PlsqlHead, SplitRanges;
    assert tokens[0..n] == tokens[..n];
    if n < |tokens| {
      SplitStep(tokens, 0, n, d);
    } else {
      LastRange(tokens, 0, d);
      assert [Range(0, n)] + [] == [Range(0, n)];
    }
  }

  lemma {:induction false} ReadPlsql(tokens: seq<Token>, k: nat, i: nat, n: nat, d: Dialect)
    requires 0 < k <= i <= n <= |tokens| && d.plsqlBlocks && PlsqlHead(tokens[..k])
    requires forall j | k <= j < n :: tokens[j].kind != SlashLine
    ensures SplitRanges(tokens, 0, i, d) == SplitRanges(tokens, 0, n, d)
    decreases |tokens| - i
  {
    hide SplitRanges, PlsqlHead;
    if i < n {
      assert tokens[..k] + tokens[k..i] == tokens[..i] == tokens[0..i];
      StillPlsql(tokens[..k], tokens[k..i]);
      SplitStep(tokens, 0, i, d);
      ReadPlsql(tokens, k, i + 1, n, d);
    }
  }

  lemma StillPlsql(tokens: seq<Token>, more: seq<Token>)
    requires PlsqlHead(tokens)
    ensures PlsqlHead(tokens + more)
  {
    hide PlsqlHead, IsPlsqlBlock;
    PlsqlHeadExactly(tokens);
    PlsqlHeadExactly(tokens + more);
    BlocksStayBlocks(tokens, more);
  }

  /** A PL/SQL block runs to its slash line, whatever semicolons it holds. */
  lemma PlsqlBlockIsOneStatement(tokens: seq<Token>, k: nat, n: nat, d: Dialect)
    requires d.plsqlBlocks && 0 < k <= n <= |tokens| && PlsqlHead(tokens[..k])
    requires forall j | 0 <= j < k :: tokens[j].kind == Word
    requires (forall j | k <= j < n :: tokens[j].kind != SlashLine) && (n < |tokens| ==> tokens[n].kind == SlashLine)
    ensures SplitRanges(tokens, 0, 0, d)
            == [Range(0, n)] + (if n < |tokens| then SplitRanges(tokens, n + 1, n + 1, d) else [])
  {
    hide SplitRanges, PlsqlHead, EndsStatement;
    forall j | 0 <= j < k
      ensures !EndsStatement(tokens[0..j], tokens[j], d)
    {
      EndsOnlyWithSeparators(tokens[0..j], tokens[j], d);
    }
    ReadUnended(tokens, 0, 0, k, d);
    ReadPlsql(tokens, k, k, n, d);
    if n < |tokens| {
      SlashEnds(tokens[0..n], tokens[n], d);
      SplitStep(tokens, 0, n, d);
    } else {
      LastRange(tokens, 0, d);
      assert [Range(0, n)] + [] == [Range(0, n)];
    }
  }

  lemma SlashEnds(current: seq<Token>, t: Token, d: Dialect)
    requires t.kind == SlashLine
    ensures EndsStatement(current, t, d)
  {
  }

  // ----- what a statement is said to be -----

  /** RETURNING stands outside all parentheses. */
  predicate ReturningAt(tokens: seq<Token>, i: nat) {
    i < |tokens| && IsWord(tokens[i], "RETURNING") && OpenParens(tokens[..i]) == []
  }

  lemma ReturningIsAnalyzed(tokens: seq<Token>, i: nat)
    requires i < |tokens|
    ensures var t := Analyze(tokens, 0)[i];
            t.depth == 0 && t.kind == Word && t.upper == "RETURNING" <==> ReturningAt(tokens, i)
  {
    DepthIsEnclosingParens(tokens, i);
  }

  /** An anonymous block is a block, and rows come from the dialect's words and from RETURNING outside parentheses. */
  lemma StatementFlags(script: string, tokens: seq<Token>, d: Dialect)
    requires tokens != [] && InScript(tokens, script)
    ensures var built := Build(script, tokens, d);
            && built.keyword == (if tokens[0].kind == Word then tokens[0].upper else "")
            && (built.isBlock <==> d.plsqlBlocks && (IsWord(tokens[0], "DECLARE") || IsWord(tokens[0], "BEGIN")))
            && (built.returnsRows <==>
                  built.keyword in d.rowKeywords || (d.returningRows && exists i: nat :: ReturningAt(tokens, i)))
  {
    PlsqlHeadExactly(tokens);
    var analyzed := Analyze(tokens, 0);
    if HasReturning(analyzed) {
      var i :| 0 <= i < |analyzed| && analyzed[i].depth == 0 && analyzed[i].kind == Word
        && analyzed[i].upper == "RETURNING";
      ReturningIsAnalyzed(tokens, i);
    }
    if i: nat :| ReturningAt(tokens, i) {
      ReturningIsAnalyzed(tokens, i);
      assert analyzed[i].depth == 0;
    }
    hide IsPlsqlBlock, Analyze, OpenParens;
  }
}
