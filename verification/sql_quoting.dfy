/** Quoting an identifier and reading it back: a SELECT from a quoted table names exactly that table. */
module SqlQuoting {
  import opened TextLines
  import opened SqlLexer
  import opened SqlLocality
  import opened SqlStatements

  /** `strings.ReplaceAll(name, q, qq)`. */
  function Doubled(name: string, quote: char): string {
    if name == "" then ""
    else (if name[0] == quote then [quote, quote] else [name[0]]) + Doubled(name[1..], quote)
  }

  /** `QuoteIdentifier` of the engines, with their own quote. */
  function QuoteIdentifier(name: string, quote: char): string {
    [quote] + Doubled(name, quote) + [quote]
  }

  lemma {:induction false} UndoubleOfDoubled(name: string, quote: char)
    ensures Undouble(Doubled(name, quote), quote) == name
  {
    if name != "" {
      var rest := Doubled(name[1..], quote);
      var all := Doubled(name, quote);
      UndoubleOfDoubled(name[1..], quote);
      if name[0] == quote {
        assert all[2..] == rest;
      } else {
        assert all[1..] == rest;
      }
    }
  }

  /** The closing quote of a quoted name is found whatever the name holds. */
  lemma {:induction false} QuoteEndOfDoubled(s: string, p: nat, name: string, quote: char)
    requires p + |Doubled(name, quote)| < |s| && s[p..p + |Doubled(name, quote)|] == Doubled(name, quote)
    requires s[p + |Doubled(name, quote)|] == quote
    requires p + |Doubled(name, quote)| + 1 < |s| ==> s[p + |Doubled(name, quote)| + 1] != quote
    ensures QuoteEnd(s, p, quote) == p + |Doubled(name, quote)| + 1
    decreases |name|
  {
    if name != "" {
      var all := Doubled(name, quote);
      var rest := Doubled(name[1..], quote);
      var step := if name[0] == quote then 2 else 1;
      assert s[p] == s[p..p + |all|][0] == all[0];
      if name[0] == quote {
        assert s[p + 1] == s[p..p + |all|][1] == all[1];
      }
      assert all[step..] == rest;
      assert s[p + step..p + |all|] == s[p..p + |all|][step..];
      QuoteEndOfDoubled(s, p + step, name[1..], quote);
    }
  }

  predicate QuotedAt(s: string, p: nat, name: string, quote: char) {
    && p + |QuoteIdentifier(name, quote)| <= |s|
    && s[p..p + |QuoteIdentifier(name, quote)|] == QuoteIdentifier(name, quote)
    && (p + |QuoteIdentifier(name, quote)| < |s| ==> s[p + |QuoteIdentifier(name, quote)|] != quote)
  }

  lemma SubSlice(s: string, p: nat, e: nat, i: nat, j: nat)
    requires p <= e <= |s| && i <= j <= e - p
    ensures s[p + i..p + j] == s[p..e][i..j]
  {
    var a, b := s[p + i..p + j], s[p..e][i..j];
    assert |a| == |b| && forall k | 0 <= k < |a| :: a[k] == b[k];
  }

  lemma QuotedParts(s: string, p: nat, name: string, quote: char)
    requires QuotedAt(s, p, name, quote)
    ensures var e := p + |QuoteIdentifier(name, quote)|;
            var inner := Doubled(name, quote);
            && p + 1 + |inner| + 1 == e && s[p] == quote && s[e - 1] == quote
            && s[p + 1..p + 1 + |inner|] == inner && Inner(s, p, e) == inner
  {
    var all, inner := QuoteIdentifier(name, quote), Doubled(name, quote);
    var e := p + |all|;
    assert all[0] == quote && all[1..1 + |inner|] == inner && all[|all| - 1] == quote;
    assert s[p] == s[p..e][0] && s[e - 1] == s[p..e][|all| - 1];
    SubSlice(s, p, e, 1, 1 + |inner|);
  }

  /** A quoted name is one token that carries the name. */
  lemma LexQuoted(s: string, p: nat, name: string, quote: char, d: Dialect)
    requires IsQuoteChar(quote, d) && QuotedAt(s, p, name, quote)
    ensures p < |s| && s[p] == quote
    ensures Lex(s, p, d) == Lexed(QuotedToken(p, p + |QuoteIdentifier(name, quote)|, name))
  {
    hide Undouble, Upper, IsSlashLine, LineEnd, BlockEnd, BracketEnd, Inner, Doubled, QuoteEnd;
    QuotedParts(s, p, name, quote);
    QuoteEndOfDoubled(s, p + 1, name, quote);
    UndoubleOfDoubled(name, quote);
  }

  lemma WordEndIs(s: string, p: nat, e: nat)
    requires p <= e <= |s| && (forall i | p <= i < e :: IsWordPart(s[i])) && (e < |s| ==> !IsWordPart(s[e]))
    ensures WordEnd(s, p) == e
  {
    var found := WordEnd(s, p);
  }

  lemma LexWordStart(s: string, p: nat, d: Dialect)
    requires p < |s| && IsWordStart(s[p]) && s[p] != 'q' && s[p] != 'Q'
    ensures Lex(s, p, d) == Lexed(SliceToken(Word, s, p, WordEnd(s, p + 1)))
  {
    hide Undouble, Upper, IsSlashLine, LineEnd, BlockEnd, BracketEnd, Inner, QuoteEnd, WordEnd, SliceToken;
  }

  lemma LexWord(s: string, p: nat, word: string, d: Dialect)
    requires word != "" && IsWordStart(word[0]) && word[0] != 'q' && word[0] != 'Q'
    requires forall i | 0 <= i < |word| :: IsWordPart(word[i])
    requires p + |word| < |s| && s[p..p + |word|] == word && !IsWordPart(s[p + |word|])
    ensures Lex(s, p, d) == Lexed(Token(Word, p, p + |word|, 0, word, Upper(word)))
  {
    hide IsWordPart, IsWordStart, Lex, Upper;
    assert forall i | 0 <= i < |word| :: s[p + i] == s[p..p + |word|][i] == word[i];
    forall i | p + 1 <= i < p + |word|
      ensures IsWordPart(s[i])
    {
      assert IsWordPart(word[i - p]);
    }
    WordEndIs(s, p + 1, p + |word|);
    LexWordStart(s, p, d);
  }

  // ----- the query -----

  const HEAD := "SELECT * FROM "

  function SelectFrom(schema: string, table: string, quote: char): string {
    HEAD + QuoteIdentifier(schema, quote) + "." + QuoteIdentifier(table, quote)
  }

  /** Where the names stand in the query. */
  lemma QueryLayout(schema: string, table: string, quote: char)
    requires quote == '"' || quote == '`'
    ensures var s := SelectFrom(schema, table, quote);
            var p := 14 + |QuoteIdentifier(schema, quote)|;
            && |s| == p + 1 + |QuoteIdentifier(table, quote)|
            && s[..14] == HEAD && s[p] == '.'
            && QuotedAt(s, 14, schema, quote) && QuotedAt(s, p + 1, table, quote)
  {
    hide QuoteIdentifier;
    var s := SelectFrom(schema, table, quote);
    var first, second := QuoteIdentifier(schema, quote), QuoteIdentifier(table, quote);
    assert |HEAD| == 14;
    assert s[14..14 + |first|] == first;
    assert s[14 + |first|] == '.';
    assert s[15 + |first|..15 + |first| + |second|] == second;
  }

  function QueryTokens(schema: string, table: string, quote: char): seq<Token> {
    var p := 14 + |QuoteIdentifier(schema, quote)|;
    [Token(Word, 0, 6, 0, "SELECT", "SELECT"), Token(Symbol, 7, 8, 0, "*", "*"), Token(Word, 9, 13, 0, "FROM", "FROM"),
     QuotedToken(14, p, schema), Token(Symbol, p, p + 1, 0, ".", "."),
     QuotedToken(p + 1, p + 1 + |QuoteIdentifier(table, quote)|, table)]
  }

  lemma UpperKeywords()
    ensures Upper("SELECT") == "SELECT" && Upper("FROM") == "FROM"
  {
    assert Upper("T") == "T" && Upper("CT") == "CT" && Upper("ECT") == "ECT" && Upper("LECT") == "LECT"
           && Upper("ELECT") == "ELECT";
    assert Upper("M") == "M" && Upper("OM") == "OM" && Upper("ROM") == "ROM";
  }

  /** The three lexemes and the spaces of the fixed head. */
  lemma HeadLexemes(s: string, d: Dialect)
    requires |s| > 14 && s[..14] == HEAD
    ensures Lex(s, 0, d) == Lexed(Token(Word, 0, 6, 0, "SELECT", "SELECT")) && Lex(s, 6, d) == Gap(7)
    ensures Lex(s, 7, d) == Lexed(Token(Symbol, 7, 8, 0, "*", "*")) && Lex(s, 8, d) == Gap(9)
    ensures Lex(s, 9, d) == Lexed(Token(Word, 9, 13, 0, "FROM", "FROM")) && Lex(s, 13, d) == Gap(14)
  {
    HeadBytes(s);
    UpperKeywords();
    LexWord(s, 0, "SELECT", d);
    LexWord(s, 9, "FROM", d);
    PlainLexemes(s, 6, d);
    PlainLexemes(s, 7, d);
    PlainLexemes(s, 8, d);
    PlainLexemes(s, 13, d);
    hide Lex, Upper;
  }

  lemma PlainLexemes(s: string, p: nat, d: Dialect)
    requires p < |s|
    ensures s[p] == ' ' ==> Lex(s, p, d) == Gap(p + 1)
    ensures s[p] == '*' ==> Lex(s, p, d) == Lexed(Token(Symbol, p, p + 1, 0, "*", "*"))
  {
    hide Undouble, Upper, IsSlashLine, LineEnd, BlockEnd, BracketEnd, Inner, QuoteEnd, WordEnd;
  }

  lemma HeadBytes(s: string)
    requires |s| > 14 && s[..14] == HEAD
    ensures s[6] == ' ' && s[7] == '*' && s[8] == ' ' && s[13] == ' '
    ensures s[0..6] == "SELECT" && s[9..13] == "FROM"
  {
    SubSlice(s, 0, 14, 0, 6);
    SubSlice(s, 0, 14, 9, 13);
    assert s[0..14] == HEAD;
    assert HEAD[0..6] == "SELECT";
    assert HEAD[9..13] == "FROM";
    assert s[6] == s[..14][6] && s[7] == s[..14][7] && s[8] == s[..14][8] && s[13] == s[..14][13];
  }

  lemma ReadToken(s: string, p: nat, t: Token, rest: seq<Token>, d: Dialect)
    requires p < |s| && Lex(s, p, d) == Lexed(t) && Tokenize(s, t.end, d) == Tokens(rest)
    ensures Tokenize(s, p, d) == Tokens([t] + rest)
  {
  }

  lemma SkipGap(s: string, p: nat, e: nat, d: Dialect)
    requires p < |s| && Lex(s, p, d) == Gap(e)
    ensures e <= |s| && Tokenize(s, p, d) == Tokenize(s, e, d)
  {
  }

  lemma NothingMore(s: string, d: Dialect)
    ensures Tokenize(s, |s|, d) == Tokens([])
  {
  }

  lemma QueryTokenizes(schema: string, table: string, quote: char, d: Dialect)
    requires IsQuoteChar(quote, d)
    ensures Tokenize(SelectFrom(schema, table, quote), 0, d) == Tokens(QueryTokens(schema, table, quote))
  {
    hide Lex, Tokenize, QuoteIdentifier, SelectFrom, Upper, QuotedAt;
    var s := SelectFrom(schema, table, quote);
    QueryLayout(schema, table, quote);
    HeadLexemes(s, d);
    LexQuoted(s, 14, schema, quote, d);
    var p := 14 + |QuoteIdentifier(schema, quote)|;
    LexQuoted(s, p + 1, table, quote, d);
    DotLexeme(s, p, d);
    var t := QueryTokens(schema, table, quote);
    NothingMore(s, d);
    ReadToken(s, p + 1, t[5], [], d);
    ReadToken(s, p, t[4], [t[5]], d);
    ReadToken(s, 14, t[3], [t[4], t[5]], d);
    SkipGap(s, 13, 14, d);
    ReadToken(s, 9, t[2], [t[3], t[4], t[5]], d);
    SkipGap(s, 8, 9, d);
    ReadToken(s, 7, t[1], [t[2], t[3], t[4], t[5]], d);
    SkipGap(s, 6, 7, d);
    ReadToken(s, 0, t[0], [t[1], t[2], t[3], t[4], t[5]], d);
    assert t == [t[0], t[1], t[2], t[3], t[4], t[5]];
  }

  lemma DotLexeme(s: string, p: nat, d: Dialect)
    requires p + 1 < |s| && s[p] == '.' && !IsDigit(s[p + 1])
    ensures Lex(s, p, d) == Lexed(Token(Symbol, p, p + 1, 0, ".", "."))
  {
    hide Undouble, Upper, IsSlashLine, LineEnd, BlockEnd, BracketEnd, Inner, QuoteEnd, WordEnd;
  }

  // ----- splitting and reading the table -----

  lemma {:induction false} NothingSeparates(tokens: seq<Token>, i: nat, d: Dialect)
    requires i <= |tokens| && tokens != []
    requires forall k | 0 <= k < |tokens| :: tokens[k].kind != SlashLine && !IsSemicolon(tokens[k])
    ensures SplitRanges(tokens, 0, i, d) == [Range(0, |tokens|)]
    decreases |tokens| - i
  {
    if i < |tokens| {
      NothingSeparates(tokens, i + 1, d);
    }
  }

  lemma {:induction false} FlatAnalysis(tokens: seq<Token>)
    requires forall k | 0 <= k < |tokens| :: tokens[k].depth == 0 && !IsOpen(tokens[k])
    ensures Analyze(tokens, 0) == tokens
  {
    if tokens != [] {
      FlatAnalysis(tokens[1..]);
      assert [tokens[0]] + tokens[1..] == tokens;
    }
  }

  lemma {:induction false} FlatTopLevel(tokens: seq<Token>)
    requires forall k | 0 <= k < |tokens| :: tokens[k].depth == 0
    ensures TopLevel(tokens) == tokens
  {
    if tokens != [] {
      FlatTopLevel(tokens[..|tokens| - 1]);
      assert tokens[..|tokens| - 1] + [tokens[|tokens| - 1]] == tokens;
    }
  }

  lemma QueryTable(schema: string, table: string, quote: char)
    ensures TableOfTop(QueryTokens(schema, table, quote)) == Some(TableReference(table, schema, true, true))
  {
    hide QuoteIdentifier, Upper;
    var t := QueryTokens(schema, table, quote);
    assert t[1..][1..] == t[2..] && t[2..][0] == t[2] && t[1..][0] == t[1];
    assert FromIndex(t[2..]) == 0;
    assert FromIndex(t[1..]) == 1;
    assert FromIndex(t) == 2;
  }

  /** For every schema and table name, quotes, semicolons and newlines included, the query is one statement
      and its single table is exactly the one named. */
  lemma QuotedNamesAreReadBack(schema: string, table: string, quote: char, d: Dialect)
    requires IsQuoteChar(quote, d)
    ensures var split := StatementsOf(SelectFrom(schema, table, quote), d);
            && split.Ok? && |split.value| == 1
            && split.value[0].slice == SelectFrom(schema, table, quote)
            && split.value[0].keyword == "SELECT"
            && TableOfTop(TopLevel(split.value[0].tokens)) == Some(TableReference(table, schema, true, true))
  {
    var s := SelectFrom(schema, table, quote);
    var t := QueryTokens(schema, table, quote);
    QueryTokenizes(schema, table, quote, d);
    QueryLayout(schema, table, quote);
    FlatQuery(schema, table, quote);
    hide Tokenize, QuoteIdentifier, SelectFrom, Upper, TableOfTop, IsPlsqlBlock, QueryTokens, QuotedAt;
    TokensAreInScript(s, d);
    NothingSeparates(t, 0, d);
    assert t[0..6] == t;
    FlatAnalysis(t);
    FlatTopLevel(t);
    QueryTable(schema, table, quote);
    assert s[0..|s|] == s;
  }

  lemma FlatQuery(schema: string, table: string, quote: char)
    ensures var t := QueryTokens(schema, table, quote);
            && |t| == 6 && t[0].start == 0 && t[0].kind == Word && t[0].upper == "SELECT"
            && t[5].end == 15 + |QuoteIdentifier(schema, quote)| + |QuoteIdentifier(table, quote)|
            && forall k | 0 <= k < |t| ::
                 t[k].kind != SlashLine && !IsSemicolon(t[k]) && t[k].depth == 0 && !IsOpen(t[k])
  {
    hide QuoteIdentifier, Upper;
  }
}
