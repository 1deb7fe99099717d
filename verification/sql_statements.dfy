/** Splitting a script into statements, and reading the single table of a SELECT. */
module SqlStatements {
  import opened TextLines
  import opened SqlLexer
  import opened SqlLocality

  // ----- recognising blocks -----

  function LeadingWords(tokens: seq<Token>, count: nat): (words: seq<string>)
    ensures |words| <= count
  {
    if count == 0 || tokens == [] || tokens[0].kind != Word then []
    else [tokens[0].upper] + LeadingWords(tokens[1..], count - 1)
  }

  const BLOCK_MODIFIERS: set<string> := {"OR", "REPLACE", "EDITIONABLE", "NONEDITIONABLE", "EDITIONING"}
  const BLOCK_OBJECTS: set<string> := {"FUNCTION", "PROCEDURE", "PACKAGE", "TRIGGER", "TYPE", "LIBRARY", "JAVA"}

  /** The words after CREATE name an object with a PL/SQL body, modifiers aside. */
  predicate CreatesBlock(words: seq<string>) {
    words != [] && (if words[0] in BLOCK_MODIFIERS then CreatesBlock(words[1..]) else words[0] in BLOCK_OBJECTS)
  }

  predicate BlockWords(words: seq<string>) {
    words != [] &&
    (words[0] == "DECLARE" || words[0] == "BEGIN" || (words[0] == "CREATE" && CreatesBlock(words[1..])))
  }

  predicate IsPlsqlBlock(tokens: seq<Token>) {
    BlockWords(LeadingWords(tokens, 6))
  }

  predicate TriggerWords(words: seq<string>) {
    && |words| >= 2 && words[0] == "CREATE"
    && (words[1] == "TRIGGER"
        || (|words| == 3 && (words[1] == "TEMP" || words[1] == "TEMPORARY") && words[2] == "TRIGGER"))
  }

  predicate IsTriggerBlock(tokens: seq<Token>) {
    TriggerWords(LeadingWords(tokens, 3))
  }

  // ----- where statements end -----

  datatype BlockState = BlockState(depth: nat, sawBegin: bool)

  /** What a word does to the nesting of a trigger body. */
  function Nest(b: BlockState, upper: string): BlockState {
    if upper == "BEGIN" || upper == "CASE" then BlockState(b.depth + 1, b.sawBegin || upper == "BEGIN")
    else if upper == "END" && b.depth > 0 then b.(depth := b.depth - 1)
    else b
  }

  /** The nesting after the tokens of a statement: only words that come after its trigger head count. */
  function Nesting(current: seq<Token>, d: Dialect): BlockState {
    if current == [] then BlockState(0, false)
    else
      var before := current[..|current| - 1];
      var last := current[|current| - 1];
      if d.triggerBlocks && IsTriggerBlock(before) && last.kind == Word then Nest(Nesting(before, d), last.upper)
      else Nesting(before, d)
  }

  predicate IsSemicolon(t: Token) {
    t.kind == Symbol && t.text == ";"
  }

  /** The token ends the statement read so far and belongs to none. */
  predicate Separates(current: seq<Token>, t: Token, d: Dialect) {
    t.kind == SlashLine ||
    (IsSemicolon(t)
     && !(d.plsqlBlocks && IsPlsqlBlock(current))
     && !(d.triggerBlocks && IsTriggerBlock(current)
          && (!Nesting(current, d).sawBegin || Nesting(current, d).depth > 0)))
  }

  datatype Range = Range(from: nat, to: nat)

  function Flushed(start: nat, i: nat): seq<Range> {
    if start < i then [Range(start, i)] else []
  }

  /** The statements as ranges of tokens; the one being read started at `start` and has come to `i`. */
  function SplitRanges(tokens: seq<Token>, start: nat, i: nat, d: Dialect): (r: seq<Range>)
    requires start <= i <= |tokens|
    ensures forall k | 0 <= k < |r| :: start <= r[k].from < r[k].to <= |tokens|
    decreases |tokens| - i
  {
    if i == |tokens| then Flushed(start, i)
    else if Separates(tokens[start..i], tokens[i], d) then Flushed(start, i) + SplitRanges(tokens, i + 1, i + 1, d)
    else SplitRanges(tokens, start, i + 1, d)
  }

  // ----- one statement -----

  /** A statement with its slice of the script. */
  datatype Statement = Statement(isBlock: bool, keyword: string, returnsRows: bool, tokens: seq<Token>, slice: string)
  {
    /** The text that is executed. */
    function Text(): string {
      TrimSpace(slice)
    }
  }

  predicate IsOpen(t: Token) {
    t.kind == Symbol && t.text == "("
  }

  predicate IsClose(t: Token) {
    t.kind == Symbol && t.text == ")"
  }

  function DepthOf(t: Token, depth: nat): nat {
    if IsClose(t) && depth > 0 then depth - 1 else depth
  }

  function DepthAfter(t: Token, depth: nat): nat {
    DepthOf(t, depth) + (if IsOpen(t) then 1 else 0)
  }

  /** The tokens with their parenthesis depth. */
  function Analyze(tokens: seq<Token>, depth: nat): (r: seq<Token>)
    ensures |r| == |tokens|
    ensures forall i | 0 <= i < |r| :: r[i] == tokens[i].(depth := r[i].depth)
  {
    if tokens == [] then []
    else [tokens[0].(depth := DepthOf(tokens[0], depth))] + Analyze(tokens[1..], DepthAfter(tokens[0], depth))
  }

  predicate HasReturning(tokens: seq<Token>) {
    exists i :: 0 <= i < |tokens| && tokens[i].depth == 0 && tokens[i].kind == Word && tokens[i].upper == "RETURNING"
  }

  /** The tokens stand in the script, in order. */
  predicate InScript(tokens: seq<Token>, script: string) {
    forall i, j | 0 <= i <= j < |tokens| :: tokens[i].start <= tokens[j].end <= |script|
  }

  function KeywordOf(t: Token): string {
    if t.kind == Word then t.upper else ""
  }

  function Build(script: string, tokens: seq<Token>, d: Dialect): Statement
    requires tokens != [] && InScript(tokens, script)
  {
    var keyword := KeywordOf(tokens[0]);
    var analyzed := Analyze(tokens, 0);
    Statement(d.plsqlBlocks && IsPlsqlBlock(tokens) && keyword != "CREATE",
              keyword,
              keyword in d.rowKeywords || (d.returningRows && HasReturning(analyzed)),
              analyzed,
              script[tokens[0].start..tokens[|tokens| - 1].end])
  }

  function BuildAll(script: string, tokens: seq<Token>, ranges: seq<Range>, d: Dialect): (r: seq<Statement>)
    requires InScript(tokens, script)
    requires forall k | 0 <= k < |ranges| :: ranges[k].from < ranges[k].to <= |tokens|
    ensures |r| == |ranges|
    ensures forall k | 0 <= k < |ranges| ::
              InScript(tokens[ranges[k].from..ranges[k].to], script)
              && r[k] == Build(script, tokens[ranges[k].from..ranges[k].to], d)
  {
    if ranges == [] then []
    else [Build(script, tokens[ranges[0].from..ranges[0].to], d)] + BuildAll(script, tokens, ranges[1..], d)
  }

  lemma TokensAreInScript(script: string, d: Dialect)
    requires Tokenize(script, 0, d).Tokens?
    ensures InScript(Tokenize(script, 0, d).tokens, script)
  {
    hide Tokenize;
    var tokens := Tokenize(script, 0, d).tokens;
    forall i, j | 0 <= i <= j < |tokens|
      ensures tokens[i].start <= tokens[j].end <= |script|
    {
      TokensAreARange(script, 0, d, i, j);
      RangeBounds(script, tokens[i].start, tokens[j].end, d);
    }
  }

  /** The statements of a script, unless the tokenizer gets stuck. */
  function StatementsOf(script: string, d: Dialect): Result<seq<Statement>, nat> {
    match Tokenize(script, 0, d)
    case StuckAt(p) => Err(p)
    case Tokens(tokens) =>
      TokensAreInScript(script, d);
      Ok(BuildAll(script, tokens, SplitRanges(tokens, 0, 0, d), d))
  }

  // ----- the splitter -----

  /** The tokens still to be analyzed after `done`, at a depth. */
  ghost predicate LeftToAnalyze(tokens: seq<Token>, done: seq<Token>, i: nat, depth: nat)
    requires i <= |tokens|
  {
    done + Analyze(tokens[i..], depth) == Analyze(tokens, 0)
  }

  lemma AnalyzeStep(tokens: seq<Token>, done: seq<Token>, i: nat, depth: nat)
    requires i < |tokens| && LeftToAnalyze(tokens, done, i, depth)
    ensures LeftToAnalyze(tokens, done + [tokens[i].(depth := DepthOf(tokens[i], depth))], i + 1,
                          DepthAfter(tokens[i], depth))
  {
    hide DepthOf, DepthAfter;
    assert tokens[i..][0] == tokens[i] && tokens[i..][1..] == tokens[i + 1..];
    var item := tokens[i].(depth := DepthOf(tokens[i], depth));
    var rest := Analyze(tokens[i + 1..], DepthAfter(tokens[i], depth));
    assert done + ([item] + rest) == done + [item] + rest;
  }

  lemma AnalyzeStart(tokens: seq<Token>)
    ensures LeftToAnalyze(tokens, [], 0, 0)
  {
    assert tokens[0..] == tokens;
  }

  lemma AnalyzeEnd(tokens: seq<Token>, done: seq<Token>, depth: nat)
    requires LeftToAnalyze(tokens, done, |tokens|, depth)
    ensures done == Analyze(tokens, 0)
  {
  }

  method AnalyzeTokens(tokens: seq<Token>) returns (analyzed: seq<Token>)
    ensures analyzed == Analyze(tokens, 0)
  {
    hide LeftToAnalyze, Analyze;
    var depth := 0;
    analyzed := [];
    AnalyzeStart(tokens);
    for index := 0 to |tokens|
      invariant depth >= 0
      invariant LeftToAnalyze(tokens, analyzed, index, depth)
    {
      var item := tokens[index];
      AnalyzeStep(tokens, analyzed, index, depth);
      if item.kind == Symbol && item.text == ")" && depth > 0 {
        depth := depth - 1;
      }
      item := item.(depth := depth);
      if item.kind == Symbol && item.text == "(" {
        depth := depth + 1;
      }
      analyzed := analyzed + [item];
    }
    AnalyzeEnd(tokens, analyzed, depth);
  }

  method BuildStatement(script: string, tokens: seq<Token>, language: Dialect) returns (statement: Statement)
    requires tokens != [] && InScript(tokens, script)
    ensures statement == Build(script, tokens, language)
  {
    hide IsPlsqlBlock, Analyze;
    var analyzed := AnalyzeTokens(tokens);
    var keyword := "";
    if analyzed[0].kind == Word {
      keyword := analyzed[0].upper;
    }
    var returnsRows := keyword in language.rowKeywords;
    if !returnsRows && language.returningRows {
      for index := 0 to |analyzed|
        invariant !returnsRows
        invariant forall k | 0 <= k < index ::
                    !(analyzed[k].depth == 0 && analyzed[k].kind == Word && analyzed[k].upper == "RETURNING")
      {
        var item := analyzed[index];
        if item.depth == 0 && item.kind == Word && item.upper == "RETURNING" {
          returnsRows := true;
          break;
        }
      }
    }
    return Statement(language.plsqlBlocks && IsPlsqlBlock(tokens) && keyword != "CREATE", keyword, returnsRows,
                     analyzed, script[analyzed[0].start..analyzed[|analyzed| - 1].end]);
  }

  /** What the splitting loop has left when the statement being read is `tokens[start..i]`. */
  ghost predicate LeftToSplit(script: string, tokens: seq<Token>, statements: seq<Statement>, start: nat, i: nat,
                              d: Dialect)
    requires start <= i <= |tokens| && InScript(tokens, script)
  {
    statements + BuildAll(script, tokens, SplitRanges(tokens, start, i, d), d)
    == BuildAll(script, tokens, SplitRanges(tokens, 0, 0, d), d)
  }

  lemma FlushStep(script: string, tokens: seq<Token>, statements: seq<Statement>, start: nat, i: nat, d: Dialect)
    requires start <= i < |tokens| && InScript(tokens, script)
    requires LeftToSplit(script, tokens, statements, start, i, d)
    requires Separates(tokens[start..i], tokens[i], d)
    ensures start == i ==> LeftToSplit(script, tokens, statements, i + 1, i + 1, d)
    ensures start < i ==> InScript(tokens[start..i], script)
    ensures start < i ==>
              LeftToSplit(script, tokens, statements + [Build(script, tokens[start..i], d)], i + 1, i + 1, d)
  {
    hide Separates, Build, InScript;
    var rest := SplitRanges(tokens, i + 1, i + 1, d);
    if start == i {
      assert [] + rest == rest;
    } else {
      var ranges := [Range(start, i)] + rest;
      assert ranges[0] == Range(start, i) && ranges[1..] == rest;
      assert SplitRanges(tokens, start, i, d) == ranges;
      assert InScript(tokens[ranges[0].from..ranges[0].to], script);
      var built := BuildAll(script, tokens, rest, d);
      assert statements + ([Build(script, tokens[start..i], d)] + built)
             == statements + [Build(script, tokens[start..i], d)] + built;
    }
  }

  lemma LastFlush(script: string, tokens: seq<Token>, statements: seq<Statement>, start: nat, d: Dialect)
    requires start <= |tokens| && InScript(tokens, script)
    requires LeftToSplit(script, tokens, statements, start, |tokens|, d)
    ensures start < |tokens| ==> InScript(tokens[start..], script)
    ensures BuildAll(script, tokens, SplitRanges(tokens, 0, 0, d), d)
         == if start < |tokens| then statements + [Build(script, tokens[start..], d)] else statements
  {
    hide Build;
    if start < |tokens| {
      var ranges := SplitRanges(tokens, start, |tokens|, d);
      assert ranges == [Range(start, |tokens|)];
      assert tokens[start..|tokens|] == tokens[start..];
      assert ranges[1..] == [];
    }
  }

  method SplitStatements(script: string, language: Dialect) returns (r: Result<seq<Statement>, nat>)
    ensures r == StatementsOf(script, language)
  {
    hide Build, Tokenize, IsPlsqlBlock, IsTriggerBlock, BuildAll, SplitRanges, LeftToSplit, InScript;
    var scanned := TokenizeScript(script, language);
    if scanned.StuckAt? {
      return Err(scanned.position);
    }
    var tokens := scanned.tokens;
    TokensAreInScript(script, language);
    var statements := [];
    var current := [];
    var blockDepth := 0;
    var sawBlockBegin := false;
    ghost var start := 0;
    StartSplit(script, tokens, language);
    for index := 0 to |tokens|
      invariant start <= index && current == tokens[start..index]
      invariant blockDepth >= 0 && BlockState(blockDepth, sawBlockBegin) == Nesting(current, language)
      invariant LeftToSplit(script, tokens, statements, start, index, language)
    {
      var item := tokens[index];
      ghost var before := current;
      assert (before + [item])[..|before|] == before;
      assert tokens[start..index + 1] == before + [item];
      var inPlsql := language.plsqlBlocks && IsPlsqlBlock(current);
      var inTrigger := language.triggerBlocks && IsTriggerBlock(current);
      if Separates(current, item, language) {
        FlushStep(script, tokens, statements, start, index, language);
      } else {
        KeepStep(script, tokens, statements, start, index, language);
      }
      if item.kind == SlashLine {
        if |current| != 0 {
          var statement := BuildStatement(script, current, language);
          statements := statements + [statement];
          current, blockDepth, sawBlockBegin := [], 0, false;
        }
        start := index + 1;
        continue;
      }

      if inTrigger && item.kind == Word {
        if item.upper == "BEGIN" || item.upper == "CASE" {
          blockDepth := blockDepth + 1;
          sawBlockBegin := sawBlockBegin || item.upper == "BEGIN";
        } else if item.upper == "END" {
          if blockDepth > 0 {
            blockDepth := blockDepth - 1;
          }
        }
      }

      if item.kind == Symbol && item.text == ";" {
        if inPlsql {
          current := current + [item];
          continue;
        }
        if inTrigger && (!sawBlockBegin || blockDepth > 0) {
          current := current + [item];
          continue;
        }
        if |current| != 0 {
          var statement := BuildStatement(script, current, language);
          statements := statements + [statement];
          current, blockDepth, sawBlockBegin := [], 0, false;
        }
        start := index + 1;
        continue;
      }
      current := current + [item];
    }
    LastFlush(script, tokens, statements, start, language);
    assert tokens[start..|tokens|] == tokens[start..];
    if |current| != 0 {
      var statement := BuildStatement(script, current, language);
      statements := statements + [statement];
    }
    return Ok(statements);
  }

  lemma StartSplit(script: string, tokens: seq<Token>, d: Dialect)
    requires InScript(tokens, script)
    ensures LeftToSplit(script, tokens, [], 0, 0, d)
  {
    hide Build, SplitRanges;
  }

  lemma KeepStep(script: string, tokens: seq<Token>, statements: seq<Statement>, start: nat, i: nat, d: Dialect)
    requires start <= i < |tokens| && InScript(tokens, script)
    requires LeftToSplit(script, tokens, statements, start, i, d)
    requires !Separates(tokens[start..i], tokens[i], d)
    ensures LeftToSplit(script, tokens, statements, start, i + 1, d)
  {
    hide Separates, Build, BuildAll;
  }

  // ----- the single table of a SELECT -----

  const SINGLE_TABLE_BREAKERS: set<string> := {
    "JOIN", "UNION", "INTERSECT", "EXCEPT", "MINUS", "GROUP", "HAVING", "DISTINCT", "CONNECT", "PIVOT",
    "UNPIVOT", "MODEL", "WINDOW", "NATURAL", "CROSS"}

  const SINGLE_TABLE_FOLLOWERS: set<string> := {"WHERE", "ORDER", "LIMIT", "FETCH", "OFFSET", "FOR"}

  datatype TableReference = TableReference(name: string, schema: string, nameQuoted: bool, schemaQuoted: bool)

  predicate IsIdentifier(t: Token) {
    t.kind == Word || t.kind == Quoted
  }

  predicate IsBreaker(t: Token) {
    t.kind == Word && t.upper in SINGLE_TABLE_BREAKERS
  }

  predicate IsFollowerWord(upper: string) {
    upper in SINGLE_TABLE_FOLLOWERS
  }

  predicate IsFrom(t: Token) {
    t.kind == Word && t.upper == "FROM"
  }

  function TopLevel(tokens: seq<Token>): seq<Token> {
    if tokens == [] then []
    else TopLevel(tokens[..|tokens| - 1]) + (if tokens[|tokens| - 1].depth == 0 then [tokens[|tokens| - 1]] else [])
  }

  /** Index of the first FROM, or the length. */
  function FromIndex(tokens: seq<Token>): (i: nat)
    ensures i <= |tokens|
    ensures i < |tokens| ==> IsFrom(tokens[i])
    ensures forall k | 0 <= k < i :: !IsFrom(tokens[k])
  {
    if tokens == [] || IsFrom(tokens[0]) then 0 else 1 + FromIndex(tokens[1..])
  }

  /** The table named right after FROM, with the position after it. */
  function TableAt(top: seq<Token>, p: nat): (TableReference, nat)
    requires p < |top|
    ensures p < TableAt(top, p).1 <= |top|
  {
    var first := top[p];
    if p + 2 < |top| && top[p + 1].text == "." && IsIdentifier(top[p + 2]) then
      (TableReference(top[p + 2].text, first.text, top[p + 2].kind == Quoted, first.kind == Quoted), p + 3)
    else
      (TableReference(first.text, "", first.kind == Quoted, false), p + 1)
  }

  function SkipAs(top: seq<Token>, p: nat): (q: nat)
    requires p <= |top|
    ensures p <= q <= |top|
  {
    if p < |top| && top[p].kind == Word && top[p].upper == "AS" then p + 1 else p
  }

  function SkipAlias(top: seq<Token>, p: nat): (q: nat)
    requires p <= |top|
    ensures p <= q <= |top|
  {
    if p < |top| && IsIdentifier(top[p]) && !IsFollowerWord(top[p].upper) then p + 1 else p
  }

  const NO_REFERENCE := TableReference("", "", false, false)

  /** The table that a SELECT names first after FROM, as far as it gets, and whether it is the only one. */
  function ReferenceOf(top: seq<Token>): (TableReference, bool) {
    var fromIndex := FromIndex(top);
    if top == [] || top[0].upper != "SELECT" || (exists i :: 0 <= i < |top| && IsBreaker(top[i]))
    then (NO_REFERENCE, false)
    else if fromIndex + 1 >= |top| || !IsIdentifier(top[fromIndex + 1]) then (NO_REFERENCE, false)
    else
      var (reference, afterName) := TableAt(top, fromIndex + 1);
      var p := SkipAlias(top, SkipAs(top, afterName));
      (reference, p == |top| || (top[p].kind == Word && IsFollowerWord(top[p].upper)))
  }

  /** The one table a SELECT reads, when its top level names exactly one right after FROM. */
  function TableOfTop(top: seq<Token>): Option<TableReference> {
    if ReferenceOf(top).1 then Some(ReferenceOf(top).0) else None
  }

  method TopLevelTokens(tokens: seq<Token>) returns (topLevel: seq<Token>)
    ensures topLevel == TopLevel(tokens)
  {
    topLevel := [];
    for index := 0 to |tokens|
      invariant topLevel == TopLevel(tokens[..index])
    {
      var item := tokens[index];
      assert tokens[..index + 1][..index] == tokens[..index];
      if item.depth == 0 {
        topLevel := topLevel + [item];
      }
    }
    assert tokens[..|tokens|] == tokens;
  }

  /** Looks for the first FROM and gives up at a word that brings in another table. */
  method FindFrom(topLevel: seq<Token>) returns (found: Option<int>)
    ensures found.None? <==> exists i :: 0 <= i < |topLevel| && IsBreaker(topLevel[i])
    ensures found.Some? ==> found.value == (if FromIndex(topLevel) < |topLevel| then FromIndex(topLevel) else -1)
  {
    hide IsBreaker;
    var fromIndex := -1;
    for index := 0 to |topLevel|
      invariant forall k | 0 <= k < index :: !IsBreaker(topLevel[k])
      invariant fromIndex < 0 ==> FromIndex(topLevel) == index + FromIndex(topLevel[index..])
      invariant fromIndex != -1 ==> fromIndex == FromIndex(topLevel) < index
    {
      var item := topLevel[index];
      assert topLevel[index..][0] == item && topLevel[index..][1..] == topLevel[index + 1..];
      if IsBreaker(item) {
        assert IsBreaker(topLevel[index]);
        return None;
      }
      if IsFrom(item) && fromIndex < 0 {
        fromIndex := index;
      }
    }
    return Some(fromIndex);
  }

  method SingleTable(statement: Statement) returns (reference: TableReference, single: bool)
    ensures (reference, single) == ReferenceOf(TopLevel(statement.tokens))
  {
    hide TopLevel, FromIndex, IsBreaker, IsFollowerWord;
    reference := NO_REFERENCE;
    var topLevel := TopLevelTokens(statement.tokens);
    if |topLevel| == 0 || topLevel[0].upper != "SELECT" {
      return reference, false;
    }

    var found := FindFrom(topLevel);
    if found.None? {
      return reference, false;
    }
    var fromIndex := found.value;
    if fromIndex < 0 || fromIndex + 1 >= |topLevel| {
      return reference, false;
    }

    var position := fromIndex + 1;
    var first := topLevel[position];
    if !IsIdentifier(first) {
      return reference, false;
    }
    reference := TableReference(first.text, "", first.kind == Quoted, false);
    position := position + 1;
    if position + 1 < |topLevel| && topLevel[position].text == "." && IsIdentifier(topLevel[position + 1]) {
      reference := reference.(schema := reference.name, schemaQuoted := reference.nameQuoted);
      reference := reference.(name := topLevel[position + 1].text, nameQuoted := topLevel[position + 1].kind == Quoted);
      position := position + 2;
    }
    if position < |topLevel| && topLevel[position].kind == Word && topLevel[position].upper == "AS" {
      position := position + 1;
    }
    if position < |topLevel| && IsIdentifier(topLevel[position]) && !IsFollowerWord(topLevel[position].upper) {
      position := position + 1;
    }
    if position < |topLevel| {
      var next := topLevel[position];
      if next.kind != Word || !IsFollowerWord(next.upper) {
        return reference, false;
      }
    }
    return reference, true;
  }
}
