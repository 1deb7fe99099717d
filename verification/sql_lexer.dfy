/** The SQL tokenizer, one lexeme at a time. A script is a string of bytes, one per `char`. */
module SqlLexer {
  import opened TextLines

  datatype TokenKind = Word | Quoted | StringLiteral | Number | Symbol | SlashLine

  datatype Token = Token(kind: TokenKind, start: nat, end: nat, depth: nat, text: string, upper: string)

  datatype Dialect = Dialect(plsqlBlocks: bool, hashComments: bool, triggerBlocks: bool, returningRows: bool,
                             bracketIdentifier: bool, rowKeywords: set<string>)

  const POSTGRES := Dialect(false, false, false, true, false, {"SHOW", "WITH", "TABLE", "SELECT", "VALUES", "EXPLAIN"})
  const ORACLE := Dialect(true, false, false, false, false, {"SELECT", "WITH"})
  const SQLITE := Dialect(false, false, true, true, true, {"SELECT", "WITH", "PRAGMA", "EXPLAIN", "VALUES"})
  const MYSQL := Dialect(false, true, true, false, true,
                         {"DESC", "SHOW", "WITH", "SELECT", "VALUES", "EXPLAIN", "DESCRIBE"})

  // ----- characters -----

  predicate IsBlank(c: char) {
    c == ' ' || c == '\t' || c == '\r' || c == '\n'
  }

  predicate IsWordStart(c: char) {
    c == '_' || c as int >= 0x80 || 'a' <= c <= 'z' || 'A' <= c <= 'Z'
  }

  predicate IsWordPart(c: char) {
    IsWordStart(c) || c == '$' || c == '#' || '0' <= c <= '9'
  }

  predicate IsNumberPart(c: char) {
    IsDigit(c) || c == '.' || c == 'e' || c == 'E'
  }

  function UpperChar(c: char): char {
    if 'a' <= c <= 'z' then (c as int - 32) as char else c
  }

  function Upper(text: string): (u: string)
    ensures |u| == |text|
  {
    if text == "" then "" else [UpperChar(text[0])] + Upper(text[1..])
  }

  // ----- where lexemes end -----

  /** Past the next newline, or the end of the script. */
  function LineEnd(s: string, p: nat): (e: nat)
    requires p <= |s|
    ensures p <= e <= |s| && (p < |s| ==> p < e)
    decreases |s| - p
  {
    if p == |s| then p else if s[p] == '\n' then p + 1 else LineEnd(s, p + 1)
  }

  /** Past the next end-of-comment mark, or the end of the script. */
  function BlockEnd(s: string, p: nat): (e: nat)
    requires p <= |s|
    ensures p <= e <= |s|
    decreases |s| - p
  {
    if p + 1 >= |s| then |s| else if s[p] == '*' && s[p + 1] == '/' then p + 2 else BlockEnd(s, p + 1)
  }

  /** Past the quote that closes a literal whose content starts at `p`; a doubled quote does not close it. */
  function QuoteEnd(s: string, p: nat, quote: char): (e: nat)
    requires p <= |s|
    ensures p <= e <= |s|
    decreases |s| - p
  {
    if p == |s| then p
    else if s[p] != quote then QuoteEnd(s, p + 1, quote)
    else if p + 1 < |s| && s[p + 1] == quote then QuoteEnd(s, p + 2, quote)
    else p + 1
  }

  function BracketEnd(s: string, p: nat): (e: nat)
    requires p <= |s|
    ensures p <= e <= |s| && (p < |s| ==> p < e)
    decreases |s| - p
  {
    if p == |s| then p else if s[p] == ']' then p + 1 else BracketEnd(s, p + 1)
  }

  function WordEnd(s: string, p: nat): (e: nat)
    requires p <= |s|
    ensures p <= e <= |s|
    ensures forall i | p <= i < e :: IsWordPart(s[i])
    ensures e < |s| ==> !IsWordPart(s[e])
    decreases |s| - p
  {
    if p < |s| && IsWordPart(s[p]) then WordEnd(s, p + 1) else p
  }

  function NumberEnd(s: string, p: nat): (e: nat)
    requires p <= |s|
    ensures p <= e <= |s|
    ensures forall i | p <= i < e :: IsNumberPart(s[i])
    ensures e < |s| ==> !IsNumberPart(s[e])
    decreases |s| - p
  {
    if p < |s| && IsNumberPart(s[p]) then NumberEnd(s, p + 1) else p
  }

  /** Past the next `closing` followed by an apostrophe, or the end of the script. */
  function TerminatorEnd(s: string, p: nat, closing: char): (e: nat)
    requires p <= |s|
    ensures p <= e <= |s|
    decreases |s| - p
  {
    if p + 1 >= |s| then |s|
    else if s[p] == closing && s[p + 1] == '\'' then p + 2
    else TerminatorEnd(s, p + 1, closing)
  }

  function ClosingOf(opening: char): char {
    match opening
    case '[' => ']'
    case '{' => '}'
    case '(' => ')'
    case '<' => '>'
    case _ => opening
  }

  /** Where an Oracle `q'..'` literal ends; zero when the script stops right after `q'`. */
  function AlternativeEnd(s: string, start: nat): (e: nat)
    ensures e == 0 || start + 3 <= e <= |s|
    ensures (e == 0) == (start + 2 >= |s|)
  {
    if start + 2 >= |s| then 0 else TerminatorEnd(s, start + 3, ClosingOf(s[start + 2]))
  }

  // ----- slash lines -----

  predicate AllSpace(text: string) {
    forall i | 0 <= i < |text| :: IsSpace(text[i])
  }

  function LineStart(s: string, p: nat): (b: nat)
    requires p <= |s|
    ensures b <= p
  {
    if p == 0 || s[p - 1] == '\n' then p else LineStart(s, p - 1)
  }

  function LineStop(s: string, p: nat): (e: nat)
    requires p <= |s|
    ensures p <= e <= |s|
    ensures forall i | p <= i < e :: s[i] != '\n'
    ensures e < |s| ==> s[e] == '\n'
    decreases |s| - p
  {
    if p == |s| || s[p] == '\n' then p else LineStop(s, p + 1)
  }

  /** The slash stands alone on its line. */
  predicate IsSlashLine(s: string, p: nat)
    requires p < |s|
  {
    AllSpace(s[LineStart(s, p)..p]) && AllSpace(s[p + 1..LineStop(s, p + 1)])
  }

  // ----- one lexeme -----

  /** White space or a comment, a token, or the place where the tokenizer gets stuck. */
  datatype Lexeme = Gap(end: nat) | Lexed(token: Token) | Stuck

  function EndOf(l: Lexeme): nat
    requires !l.Stuck?
  {
    match l case Gap(e) => e case Lexed(t) => t.end
  }

  predicate StartsLineComment(s: string, p: nat, d: Dialect)
    requires p < |s|
  {
    (s[p] == '-' && p + 1 < |s| && s[p + 1] == '-') || (s[p] == '#' && d.hashComments)
  }

  predicate StartsBlockComment(s: string, p: nat)
    requires p < |s|
  {
    s[p] == '/' && p + 1 < |s| && s[p + 1] == '*'
  }

  predicate StartsAlternativeQuote(s: string, p: nat, d: Dialect)
    requires p < |s|
  {
    (s[p] == 'q' || s[p] == 'Q') && d.plsqlBlocks && p + 1 < |s| && s[p + 1] == '\''
  }

  predicate StartsNumber(s: string, p: nat)
    requires p < |s|
  {
    IsDigit(s[p]) || (s[p] == '.' && p + 1 < |s| && IsDigit(s[p + 1]))
  }

  predicate IsQuoteChar(c: char, d: Dialect) {
    c == '"' || (c == '`' && d.bracketIdentifier)
  }

  /** `strings.ReplaceAll(text, qq, q)`. */
  function Undouble(text: string, quote: char): string {
    if text == "" then ""
    else if |text| >= 2 && text[0] == quote && text[1] == quote then [quote] + Undouble(text[2..], quote)
    else [text[0]] + Undouble(text[1..], quote)
  }

  /** What stands between the delimiters of a literal that runs from `p` to `e`. */
  function Inner(s: string, p: nat, e: nat): string
    requires p < e <= |s|
  {
    s[p + 1..if e - 1 > p + 1 then e - 1 else p + 1]
  }

  function SliceToken(kind: TokenKind, s: string, p: nat, e: nat): Token
    requires p < e <= |s|
  {
    Token(kind, p, e, 0, s[p..e], if kind == Word then Upper(s[p..e]) else "")
  }

  function QuotedToken(p: nat, e: nat, inner: string): Token {
    Token(Quoted, p, e, 0, inner, Upper(inner))
  }

  /** The lexeme at `p`. */
  function Lex(s: string, p: nat, d: Dialect): (l: Lexeme)
    requires p < |s|
    ensures !l.Stuck? ==> p < EndOf(l) <= |s|
    ensures l.Lexed? ==> l.token.start == p
    ensures l.Stuck? <==> StartsAlternativeQuote(s, p, d) && p + 2 == |s|
  {
    var c := s[p];
    if IsBlank(c) then Gap(p + 1)
    else if StartsLineComment(s, p, d) then Gap(LineEnd(s, p))
    else if StartsBlockComment(s, p) then Gap(BlockEnd(s, p + 2))
    else if c == '/' && d.plsqlBlocks && IsSlashLine(s, p) then Lexed(Token(SlashLine, p, p + 1, 0, "/", "/"))
    else if StartsAlternativeQuote(s, p, d) then
      var end := AlternativeEnd(s, p);
      if end == 0 then Stuck else Lexed(SliceToken(StringLiteral, s, p, end))
    else if c == '\'' then Lexed(SliceToken(StringLiteral, s, p, QuoteEnd(s, p + 1, '\'')))
    else if IsQuoteChar(c, d) then
      var end := QuoteEnd(s, p + 1, c);
      Lexed(QuotedToken(p, end, Undouble(Inner(s, p, end), c)))
    else if c == '[' && d.bracketIdentifier then
      var end := BracketEnd(s, p);
      Lexed(QuotedToken(p, end, Inner(s, p, end)))
    else if IsWordStart(c) then Lexed(SliceToken(Word, s, p, WordEnd(s, p + 1)))
    else if StartsNumber(s, p) then Lexed(SliceToken(Number, s, p, NumberEnd(s, p + 1)))
    else Lexed(Token(Symbol, p, p + 1, 0, [c], [c]))
  }

  /** The tokens from `p` on, or where the tokenizer gets stuck: an unfinished `q'` ends at position zero. The program
      then slices backwards and panics or, when the `q'` stands there, appends empty tokens for ever. */
  datatype Scanned = Tokens(tokens: seq<Token>) | StuckAt(position: nat)

  function Prepend(t: Token, rest: Scanned): Scanned {
    if rest.Tokens? then Tokens([t] + rest.tokens) else rest
  }

  function Tokenize(s: string, p: nat, d: Dialect): Scanned
    requires p <= |s|
    decreases |s| - p
  {
    if p == |s| then Tokens([]) else
    match Lex(s, p, d)
    case Stuck => StuckAt(p)
    case Gap(e) => Tokenize(s, e, d)
    case Lexed(t) => Prepend(t, Tokenize(s, t.end, d))
  }

  // ----- the tokenizer -----

  method ClosingQuote(script: string, start: nat, quote: char) returns (end: nat)
    requires start < |script|
    ensures end == QuoteEnd(script, start + 1, quote)
  {
    var position := start + 1;
    while position < |script|
      invariant position <= |script|
      invariant QuoteEnd(script, start + 1, quote) == QuoteEnd(script, position, quote)
    {
      if script[position] != quote {
        position := position + 1;
        continue;
      }
      if position + 1 < |script| && script[position + 1] == quote {
        position := position + 2;
        continue;
      }
      return position + 1;
    }
    return |script|;
  }

  /** What the whole scan comes to when `tokens` were read and `rest` is what follows. */
  function After(tokens: seq<Token>, rest: Scanned): Scanned {
    if rest.Tokens? then Tokens(tokens + rest.tokens) else rest
  }

  lemma NothingFirst(rest: Scanned)
    ensures After([], rest) == rest
  {
  }

  lemma NothingLeft(script: string, d: Dialect, tokens: seq<Token>)
    ensures After(tokens, Tokenize(script, |script|, d)) == Tokens(tokens)
  {
  }

  lemma TokenizeStep(script: string, p: nat, d: Dialect, tokens: seq<Token>)
    requires p < |script|
    ensures var l := Lex(script, p, d);
            After(tokens, Tokenize(script, p, d))
            == if l.Stuck? then StuckAt(p)
               else if l.Lexed? then After(tokens + [l.token], Tokenize(script, EndOf(l), d))
               else After(tokens, Tokenize(script, EndOf(l), d))
  {
    hide Lex;
    match Lex(script, p, d) {
      case Stuck =>
      case Gap(_) =>
      case Lexed(t) =>
        var rest := Tokenize(script, t.end, d);
        if rest.Tokens? {
          assert tokens + ([t] + rest.tokens) == tokens + [t] + rest.tokens;
        }
    }
  }

  method TokenizeScript(script: string, language: Dialect) returns (r: Scanned)
    ensures r == Tokenize(script, 0, language)
  {
    hide IsSlashLine, AlternativeEnd, Undouble, Inner, Upper, LineEnd, BlockEnd, BracketEnd, StartsNumber, Tokenize,
         IsWordStart, IsWordPart, IsNumberPart, IsDigit, After;
    var tokens := [];
    var length := |script|;
    var position := 0;
    NothingFirst(Tokenize(script, 0, language));
    while position < length
      invariant position <= length
      invariant Tokenize(script, 0, language) == After(tokens, Tokenize(script, position, language))
      decreases length - position
    {
      var character := script[position];
      TokenizeStep(script, position, language, tokens);
      ghost var before := position;
      if IsBlank(character) {
        position := position + 1;
      } else if StartsLineComment(script, position, language) {
        position := LineEnd(script, position);
      } else if StartsBlockComment(script, position) {
        position := BlockEnd(script, position + 2);
      } else if character == '/' && language.plsqlBlocks && IsSlashLine(script, position) {
        tokens := tokens + [Token(SlashLine, position, position + 1, 0, "/", "/")];
        position := position + 1;
      } else if StartsAlternativeQuote(script, position, language) {
        var end := AlternativeEnd(script, position);
        if end == 0 {
          return StuckAt(position);
        }
        tokens := tokens + [SliceToken(StringLiteral, script, position, end)];
        position := end;
      } else if character == '\'' {
        var end := ClosingQuote(script, position, '\'');
        tokens := tokens + [SliceToken(StringLiteral, script, position, end)];
        position := end;
      } else if IsQuoteChar(character, language) {
        var end := ClosingQuote(script, position, character);
        tokens := tokens + [QuotedToken(position, end, Undouble(Inner(script, position, end), character))];
        position := end;
      } else if character == '[' && language.bracketIdentifier {
        var end := BracketEnd(script, position);
        tokens := tokens + [QuotedToken(position, end, Inner(script, position, end))];
        position := end;
      } else if IsWordStart(character) {
        var end := position + 1;
        while end < length && IsWordPart(script[end])
          invariant position < end <= length
          invariant WordEnd(script, position + 1) == WordEnd(script, end)
        {
          end := end + 1;
        }
        tokens := tokens + [SliceToken(Word, script, position, end)];
        position := end;
      } else if StartsNumber(script, position) {
        var end := position + 1;
        while end < length && IsNumberPart(script[end])
          invariant position < end <= length
          invariant NumberEnd(script, position + 1) == NumberEnd(script, end)
        {
          end := end + 1;
        }
        tokens := tokens + [SliceToken(Number, script, position, end)];
        position := end;
      } else {
        tokens := tokens + [Token(Symbol, position, position + 1, 0, [character], [character])];
        position := position + 1;
      }
    }
    NothingLeft(script, language, tokens);
    return Tokens(tokens);
  }
}
