/** String literals: whatever text is quoted, it is one token, and nothing in it ends a statement. */
module SqlStrings {
  import opened TextLines
  import opened SqlLexer
  import opened SqlLocality
  import opened SqlStatements
  import opened SqlQuoting

  /** A text as a string literal: between apostrophes, its own apostrophes doubled. */
  function StringOf(text: string): string {
    "'" + Doubled(text, '\'') + "'"
  }

  /** The literal stands at `p`, and no apostrophe follows it. */
  predicate StringAt(s: string, p: nat, text: string) {
    && p + |StringOf(text)| <= |s| && s[p..p + |StringOf(text)|] == StringOf(text)
    && (p + |StringOf(text)| < |s| ==> s[p + |StringOf(text)|] != '\'')
  }

  function StringToken(p: nat, text: string): Token {
    Token(StringLiteral, p, p + |StringOf(text)|, 0, StringOf(text), "")
  }

  lemma LexString(s: string, p: nat, text: string, d: Dialect)
    requires StringAt(s, p, text)
    ensures p < |s| && Lex(s, p, d) == Lexed(StringToken(p, text))
  {
    assert StringOf(text) == QuoteIdentifier(text, '\'');
    QuotedParts(s, p, text, '\'');
    QuoteEndOfDoubled(s, p + 1, text, '\'');
    hide Undouble, Upper, IsSlashLine, LineEnd, BlockEnd, BracketEnd, Inner, Doubled, QuoteEnd, QuoteIdentifier;
  }

  /** In any script, wherever a lexeme starts, the literal is one token, and it never ends a statement. */
  lemma StringIsOneToken(s: string, p: nat, text: string, d: Dialect)
    requires StringAt(s, p, text) && LexRange(s, 0, p, d).Some?
    ensures Tokenize(s, 0, d)
            == After(LexRange(s, 0, p, d).value + [StringToken(p, text)], Tokenize(s, p + |StringOf(text)|, d))
    ensures forall current :: !Separates(current, StringToken(p, text), d)
  {
    hide Lex, Tokenize, StringAt, StringOf;
    LexString(s, p, text, d);
    TokenizeThrough(s, 0, p, d);
    TokenizeStep(s, p, d, LexRange(s, 0, p, d).value);
  }

  const SELECT_HEAD := "SELECT "

  lemma SelectLayout(text: string)
    ensures var s := SELECT_HEAD + StringOf(text);
            StringAt(s, 7, text) && |s| == 7 + |StringOf(text)| && s[0..6] == "SELECT" && s[6] == ' '
  {
    hide StringOf;
    var s := SELECT_HEAD + StringOf(text);
    assert s[7..7 + |StringOf(text)|] == StringOf(text);
    assert s[0..6] == SELECT_HEAD[0..6] == "SELECT";
  }

  lemma SelectTokenizes(text: string, d: Dialect)
    ensures Tokenize(SELECT_HEAD + StringOf(text), 0, d)
            == Tokens([Token(Word, 0, 6, 0, "SELECT", "SELECT"), StringToken(7, text)])
  {
    hide Lex, Tokenize, StringAt, StringOf, Upper;
    var s := SELECT_HEAD + StringOf(text);
    SelectLayout(text);
    UpperKeywords();
    LexWord(s, 0, "SELECT", d);
    PlainLexemes(s, 6, d);
    LexString(s, 7, text, d);
    NothingMore(s, d);
    ReadToken(s, 7, StringToken(7, text), [], d);
    SkipGap(s, 6, 7, d);
    ReadToken(s, 0, Token(Word, 0, 6, 0, "SELECT", "SELECT"), [StringToken(7, text)], d);
  }

  /** A script without separators is one statement. */
  lemma OneStatement(s: string, tokens: seq<Token>, d: Dialect)
    requires Tokenize(s, 0, d) == Tokens(tokens) && tokens != []
    requires forall k | 0 <= k < |tokens| :: tokens[k].kind != SlashLine && !IsSemicolon(tokens[k])
    ensures InScript(tokens, s) && StatementsOf(s, d) == Ok([Build(s, tokens, d)])
  {
    hide Tokenize, Build, InScript, IsSemicolon;
    TokensAreInScript(s, d);
    NothingSeparates(tokens, 0, d);
    assert tokens[0..|tokens|] == tokens;
    var built := BuildAll(s, tokens, [Range(0, |tokens|)], d);
    assert built == [built[0]];
  }

  lemma BuildKeeps(s: string, tokens: seq<Token>, d: Dialect)
    requires tokens != [] && InScript(tokens, s)
    ensures var built := Build(s, tokens, d);
            && built.slice == s[tokens[0].start..tokens[|tokens| - 1].end] && |built.tokens| == |tokens|
            && forall i | 0 <= i < |tokens| ::
                 built.tokens[i].kind == tokens[i].kind && built.tokens[i].text == tokens[i].text
  {
    hide IsPlsqlBlock, HasReturning;
  }

  /** For every text, semicolons and apostrophes included, selecting it as a literal is one statement. */
  lemma SelectedStringIsOneStatement(text: string, d: Dialect)
    ensures var s := "SELECT " + StringOf(text);
            var split := StatementsOf(s, d);
            split.Ok? && |split.value| == 1 && split.value[0].slice == s
            && |split.value[0].tokens| == 2 && split.value[0].tokens[1].kind == StringLiteral
  {
    var s := SELECT_HEAD + StringOf(text);
    var t := [Token(Word, 0, 6, 0, "SELECT", "SELECT"), StringToken(7, text)];
    SelectTokenizes(text, d);
    SelectLayout(text);
    hide Tokenize, StringAt, StringOf, StatementsOf, Build, InScript;
    OneStatement(s, t, d);
    BuildKeeps(s, t, d);
    assert s[0..|s|] == s;
  }
}
