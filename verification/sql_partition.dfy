/** The tokens partition the script, and exactly which scripts the tokenizer cannot finish. */
module SqlPartition {
  import opened TextLines
  import opened SqlLexer
  import opened SqlLocality

  // ----- the bytes that names, numbers and gaps are made of -----

  predicate BlankByte(c: char) {
    c == ' ' || c == '\t' || c == '\r' || c == '\n'
  }

  predicate LetterByte(c: char) {
    'a' <= c <= 'z' || 'A' <= c <= 'Z' || c == '_' || c as int >= 0x80
  }

  predicate NameByte(c: char) {
    LetterByte(c) || '0' <= c <= '9' || c == '$' || c == '#'
  }

  predicate NumberByte(c: char) {
    '0' <= c <= '9' || c == '.' || c == 'e' || c == 'E'
  }

  /** The byte at `i` is there and is `c`. */
  predicate ByteAt(s: string, i: nat, c: char) {
    i < |s| && s[i] == c
  }

  predicate DigitAt(s: string, i: nat) {
    i < |s| && '0' <= s[i] <= '9'
  }

  /** `text` in upper case, letter by letter. */
  predicate IsUpper(text: string, upper: string) {
    |upper| == |text|
    && forall i | 0 <= i < |text| ::
         upper[i] == if 'a' <= text[i] <= 'z' then (text[i] as int - 32) as char else text[i]
  }

  // ----- what may stand between tokens -----

  /** Two dashes, or a number sign where it starts comments. */
  predicate DashesAt(s: string, a: nat, d: Dialect) {
    (ByteAt(s, a, '-') && ByteAt(s, a + 1, '-')) || (ByteAt(s, a, '#') && d.hashComments)
  }

  /** A line comment: no newline before its last byte, which is one unless the script ends there. */
  predicate IsLineComment(s: string, a: nat, e: nat, d: Dialect) {
    && a < e <= |s| && DashesAt(s, a, d)
    && (forall i | a <= i < e - 1 :: s[i] != '\n')
    && (s[e - 1] == '\n' || e == |s|)
  }

  predicate EndsBlock(s: string, i: nat)
    requires i + 1 < |s|
  {
    s[i] == '*' && s[i + 1] == '/'
  }

  /** A block comment: it runs to the first end mark after its start mark, or to the end of the script. */
  predicate IsBlockComment(s: string, a: nat, e: nat) {
    && a + 2 <= e <= |s| && s[a] == '/' && s[a + 1] == '*'
    && (forall i | a + 2 <= i < e - 2 :: !EndsBlock(s, i))
    && ((a + 4 <= e && EndsBlock(s, e - 2)) || e == |s|)
  }

  predicate IsComment(s: string, a: nat, e: nat, d: Dialect) {
    IsLineComment(s, a, e, d) || IsBlockComment(s, a, e)
  }

  /** Only white space and whole comments stand between `a` and `b`. */
  ghost predicate OnlyGaps(s: string, a: nat, b: nat, d: Dialect)
    requires b <= |s|
    decreases b - a
  {
    a == b ||
    (a < b &&
     ((BlankByte(s[a]) && OnlyGaps(s, a + 1, b, d))
      || exists e :: a < e <= b && IsComment(s, a, e, d) && OnlyGaps(s, e, b, d)))
  }

  // ----- where quoted text ends -----

  /** How many quotes stand between `p` and `i`. */
  function Quotes(s: string, p: nat, i: nat, quote: char): nat
    requires i <= |s|
  {
    if i <= p then 0 else Quotes(s, p, i - 1, quote) + if s[i - 1] == quote then 1 else 0
  }

  /** The quote at `i` ends a run of quotes and, all earlier ones being doubled, is left over. */
  predicate Closes(s: string, p: nat, i: nat, quote: char)
    requires i < |s|
  {
    s[i] == quote && (i + 1 < |s| ==> s[i + 1] != quote) && Quotes(s, p, i + 1, quote) % 2 == 1
  }

  /** Content that starts at `p` runs past the first quote that closes it, or to the end of the script. */
  predicate EndsQuote(s: string, p: nat, e: nat, quote: char) {
    && p <= e <= |s|
    && (forall i | p <= i < e - 1 :: !Closes(s, p, i, quote))
    && (e == |s| || (p < e && Closes(s, p, e - 1, quote)))
  }

  predicate EndsBracket(s: string, p: nat, e: nat) {
    && p <= e <= |s|
    && (forall i | p <= i < e - 1 :: s[i] != ']')
    && (e == |s| || (p < e && s[e - 1] == ']'))
  }

  /** The character that closes an Oracle literal opened by another. */
  predicate Delimits(opening: char, closing: char) {
    if opening == '[' then closing == ']'
    else if opening == '{' then closing == '}'
    else if opening == '(' then closing == ')'
    else if opening == '<' then closing == '>'
    else closing == opening
  }

  predicate Terminates(s: string, i: nat, opening: char)
    requires i + 1 < |s|
  {
    Delimits(opening, s[i]) && s[i + 1] == '\''
  }

  /** Content that starts at `p` runs past the first closing character that an apostrophe follows, or to the end. */
  predicate EndsAlternative(s: string, p: nat, e: nat, opening: char) {
    && p <= e <= |s|
    && (forall i | p <= i < e - 2 :: !Terminates(s, i, opening))
    && (e == |s| || (p + 2 <= e && Terminates(s, e - 2, opening)))
  }

  lemma {:induction false} QuoteEndEnds(s: string, from: nat, p: nat, quote: char)
    requires from <= p <= |s| && Quotes(s, from, p, quote) % 2 == 0
    requires forall i | from <= i < p :: !Closes(s, from, i, quote)
    ensures EndsQuote(s, from, QuoteEnd(s, p, quote), quote)
    decreases |s| - p
  {
    if p < |s| {
      if s[p] != quote {
        QuoteEndEnds(s, from, p + 1, quote);
      } else if p + 1 < |s| && s[p + 1] == quote {
        assert Quotes(s, from, p + 2, quote) == Quotes(s, from, p, quote) + 2;
        QuoteEndEnds(s, from, p + 2, quote);
      } else {
        assert Closes(s, from, p, quote);
      }
    }
  }

  lemma {:induction false} BracketEndEnds(s: string, p: nat)
    requires p <= |s|
    ensures EndsBracket(s, p, BracketEnd(s, p))
    decreases |s| - p
  {
    if p < |s| && s[p] != ']' {
      BracketEndEnds(s, p + 1);
    }
  }

  lemma {:induction false} TerminatorEndEnds(s: string, p: nat, opening: char)
    requires p <= |s|
    ensures EndsAlternative(s, p, TerminatorEnd(s, p, ClosingOf(opening)), opening)
    decreases |s| - p
  {
    if p + 1 < |s| && !Terminates(s, p, opening) {
      TerminatorEndEnds(s, p + 1, opening);
    }
  }

  /** The apostrophe at `i + 1` belongs to an Oracle literal that starts with the `q` at `i`. */
  predicate QAt(s: string, i: nat, d: Dialect) {
    d.plsqlBlocks && (ByteAt(s, i, 'q') || ByteAt(s, i, 'Q')) && ByteAt(s, i + 1, '\'')
  }

  /** A literal is closed where it should be, and a quoted name is what stands between its delimiters. */
  predicate StringFits(s: string, t: Token, d: Dialect)
    requires t.start < t.end <= |s|
  {
    t.upper == ""
    && if QAt(s, t.start, d) then
         t.start + 2 < |s| && EndsAlternative(s, t.start + 3, t.end, s[t.start + 2])
       else s[t.start] == '\'' && EndsQuote(s, t.start + 1, t.end, '\'')
  }

  predicate QuotedFits(s: string, t: Token, d: Dialect)
    requires t.start < t.end <= |s|
  {
    IsUpper(t.text, t.upper)
    && if s[t.start] == '"' || (s[t.start] == '`' && d.bracketIdentifier) then
         EndsQuote(s, t.start + 1, t.end, s[t.start]) && t.text == Undouble(Inner(s, t.start, t.end), s[t.start])
       else
         s[t.start] == '[' && d.bracketIdentifier
         && EndsBracket(s, t.start + 1, t.end) && t.text == Inner(s, t.start, t.end)
  }

  predicate NumberAt(s: string, p: nat) {
    DigitAt(s, p) || (ByteAt(s, p, '.') && DigitAt(s, p + 1))
  }

  /** Between the line's start `a` and its end `b` nothing but blanks stands around the slash. */
  predicate AloneOn(s: string, p: nat, a: nat, b: nat) {
    && a <= p < b <= |s| && s[p] == '/'
    && (a == 0 || s[a - 1] == '\n') && (b == |s| || s[b] == '\n')
    && forall i | a <= i < b && i != p ::
         s[i] == ' ' || s[i] == '\t' || s[i] == '\r' || s[i] as int == 0x0b || s[i] as int == 0x0c
  }

  ghost predicate SlashAlone(s: string, p: nat) {
    exists a: nat, b: nat :: AloneOn(s, p, a, b)
  }

  /** The byte is none that a gap or another kind of token starts with. */
  ghost predicate PlainAt(s: string, p: nat, d: Dialect)
    requires p < |s|
  {
    var c := s[p];
    && c != ' ' && c != '\t' && c != '\r' && c != '\n'
    && c != '\'' && c != '"' && !(c == '`' && d.bracketIdentifier) && !(c == '[' && d.bracketIdentifier)
    && !('a' <= c <= 'z') && !('A' <= c <= 'Z') && c != '_' && c as int < 0x80 && !('0' <= c <= '9')
    && !(c == '.' && DigitAt(s, p + 1))
    && !(c == '-' && ByteAt(s, p + 1, '-')) && !(c == '#' && d.hashComments) && !(c == '/' && ByteAt(s, p + 1, '*'))
    && !(d.plsqlBlocks && SlashAlone(s, p))
  }

  /** A token is made of its own bytes, starts with the bytes of its kind alone, and stops where its kind says. */
  ghost predicate TokenFits(s: string, t: Token, d: Dialect) {
    && t.start < t.end <= |s| && t.depth == 0
    && (t.kind != Quoted ==> t.text == s[t.start..t.end])
    && match t.kind
       case Word =>
         LetterByte(s[t.start]) && !QAt(s, t.start, d) && IsUpper(t.text, t.upper)
         && (forall i | t.start <= i < t.end :: NameByte(s[i])) && (t.end < |s| ==> !NameByte(s[t.end]))
       case Number =>
         NumberAt(s, t.start) && t.upper == ""
         && (forall i | t.start <= i < t.end :: NumberByte(s[i])) && (t.end < |s| ==> !NumberByte(s[t.end]))
       case StringLiteral => StringFits(s, t, d)
       case Quoted => QuotedFits(s, t, d)
       case Symbol => t.end == t.start + 1 && PlainAt(s, t.start, d) && t.upper == t.text
       case SlashLine => d.plsqlBlocks && t.end == t.start + 1 && SlashAlone(s, t.start) && t.upper == "/"
  }

  /** The tokens are in order, disjoint and in bounds, and nothing else but gaps stands from `p` to the end. */
  ghost predicate Partition(s: string, p: nat, ts: seq<Token>, d: Dialect)
    requires p <= |s|
    decreases |ts|
  {
    if ts == [] then OnlyGaps(s, p, |s|, d)
    else
      && p <= ts[0].start && TokenFits(s, ts[0], d)
      && OnlyGaps(s, p, ts[0].start, d)
      && Partition(s, ts[0].end, ts[1..], d)
  }

  lemma {:induction false} LineEndIsAComment(s: string, p: nat)
    requires p <= |s|
    ensures var e := LineEnd(s, p);
            && (forall i | p <= i < e - 1 :: s[i] != '\n')
            && (e == |s| || (p < e && s[e - 1] == '\n'))
    decreases |s| - p
  {
    if p < |s| && s[p] != '\n' {
      LineEndIsAComment(s, p + 1);
    }
  }

  lemma {:induction false} BlockEndIsAComment(s: string, p: nat)
    requires p <= |s|
    ensures var e := BlockEnd(s, p);
            && (forall i | p <= i < e - 2 :: !EndsBlock(s, i))
            && ((p + 2 <= e && EndsBlock(s, e - 2)) || e == |s|)
    decreases |s| - p
  {
    if p + 1 < |s| && !(s[p] == '*' && s[p + 1] == '/') {
      BlockEndIsAComment(s, p + 1);
    }
  }

  lemma GapIsBlankOrComment(s: string, p: nat, d: Dialect)
    requires p < |s| && Lex(s, p, d).Gap?
    ensures var e := EndOf(Lex(s, p, d));
            IsComment(s, p, e, d) || (BlankByte(s[p]) && e == p + 1)
  {
    hide Undouble, Upper, IsSlashLine, IsWordStart, IsDigit, Inner, AlternativeEnd, QuoteEnd, BracketEnd, LineEnd,
         BlockEnd;
    LineEndIsAComment(s, p);
    if p + 2 <= |s| {
      BlockEndIsAComment(s, p + 2);
    }
  }

  lemma {:induction false} UpperIsUpper(text: string)
    ensures IsUpper(text, Upper(text))
  {
    if text != "" {
      UpperIsUpper(text[1..]);
    }
  }

  lemma {:induction false} LineStartIs(s: string, p: nat)
    requires p <= |s|
    ensures var a := LineStart(s, p);
            (a == 0 || s[a - 1] == '\n') && forall i | a <= i < p :: s[i] != '\n'
  {
    if p > 0 && s[p - 1] != '\n' {
      LineStartIs(s, p - 1);
    }
  }

  predicate LineBlank(c: char) {
    c == ' ' || c == '\t' || c == '\r' || c as int == 0x0b || c as int == 0x0c
  }

  lemma BlankSlice(s: string, a: nat, b: nat)
    requires a <= b <= |s| && forall i | a <= i < b :: s[i] != '\n'
    ensures AllSpace(s[a..b]) <==> forall i | a <= i < b :: LineBlank(s[i])
  {
    forall i | a <= i < b
      ensures IsSpace(s[a..b][i - a]) <==> LineBlank(s[i])
    {
      assert s[a..b][i - a] == s[i];
    }
    if forall i | a <= i < b :: LineBlank(s[i]) {
      forall j | 0 <= j < b - a
        ensures IsSpace(s[a..b][j])
      {
        assert LineBlank(s[a + j]);
      }
    }
  }

  /** A slash stands alone between the bounds of its line exactly when the two sides of the line are blank. */
  lemma SlashLineExactly(s: string, p: nat)
    requires p < |s| && s[p] == '/'
    ensures SlashAlone(s, p) <==> IsSlashLine(s, p)
  {
    var a, b := LineStart(s, p), LineStop(s, p + 1);
    LineStartIs(s, p);
    BlankSlice(s, a, p);
    BlankSlice(s, p + 1, b);
    hide AllSpace, LineStart, LineStop;
    if IsSlashLine(s, p) {
      assert forall i | a <= i < b && i != p :: LineBlank(s[i]);
      assert AloneOn(s, p, a, b);
    }
    if x: nat, y: nat :| AloneOn(s, p, x, y) {
      OnlyLine(s, p, x, y, a, b);
      assert forall i | x <= i < y && i != p :: LineBlank(s[i]);
    }
  }

  lemma OnlyLine(s: string, p: nat, x: nat, y: nat, a: nat, b: nat)
    requires AloneOn(s, p, x, y) && a <= p < b <= |s|
    requires (a == 0 || s[a - 1] == '\n') && forall i | a <= i < p :: s[i] != '\n'
    requires (b == |s| || s[b] == '\n') && forall i | p < i < b :: s[i] != '\n'
    ensures x == a && y == b
  {
    assert a == 0 || s[a - 1] == '\n';
    assert x == 0 || s[x - 1] == '\n';
  }

  lemma OneByte(s: string, p: nat)
    requires p < |s|
    ensures s[p..p + 1] == [s[p]]
  {
  }

  lemma SymbolFits(s: string, p: nat, d: Dialect)
    requires p < |s| && Lex(s, p, d).Lexed? && Lex(s, p, d).token.kind == Symbol
    ensures TokenFits(s, Lex(s, p, d).token, d)
  {
    hide Undouble, Upper, IsSlashLine, SlashAlone, Inner, QuoteEnd, BracketEnd, LineEnd, BlockEnd, TerminatorEnd;
    if s[p] == '/' {
      SlashLineExactly(s, p);
    }
    NoSlashNoLine(s, p);
    assert Lex(s, p, d).token == Token(Symbol, p, p + 1, 0, [s[p]], [s[p]]);
    OneByte(s, p);
  }

  lemma NoSlashNoLine(s: string, p: nat)
    requires p < |s|
    ensures SlashAlone(s, p) ==> s[p] == '/'
  {
  }

  lemma SlashFits(s: string, p: nat, d: Dialect)
    requires p < |s| && Lex(s, p, d).Lexed? && Lex(s, p, d).token.kind == SlashLine
    ensures TokenFits(s, Lex(s, p, d).token, d)
  {
    hide Undouble, Upper, IsSlashLine, SlashAlone, Inner, QuoteEnd, BracketEnd, LineEnd, BlockEnd, TerminatorEnd;
    assert s[p] == '/';
    SlashLineExactly(s, p);
    OneByte(s, p);
  }

  lemma RunFits(s: string, p: nat, d: Dialect)
    requires p < |s| && Lex(s, p, d).Lexed? && (Lex(s, p, d).token.kind == Word || Lex(s, p, d).token.kind == Number)
    ensures TokenFits(s, Lex(s, p, d).token, d)
  {
    hide Lex, Upper, IsUpper;
    WordLexed(s, p, d);
    NumberLexed(s, p, d);
    UpperIsUpper(s[p..Lex(s, p, d).token.end]);
  }

  lemma StringTokenFits(s: string, p: nat, d: Dialect)
    requires p < |s| && Lex(s, p, d).Lexed? && Lex(s, p, d).token.kind == StringLiteral
    ensures TokenFits(s, Lex(s, p, d).token, d)
  {
    hide Undouble, Upper, IsSlashLine, IsDigit, Inner, QuoteEnd, BracketEnd, LineEnd, BlockEnd, TerminatorEnd,
         EndsQuote, EndsAlternative;
    QuoteEndEnds(s, p + 1, p + 1, s[p]);
    if p + 3 <= |s| {
      TerminatorEndEnds(s, p + 3, s[p + 2]);
    }
  }

  lemma QuotedTokenFits(s: string, p: nat, d: Dialect)
    requires p < |s| && Lex(s, p, d).Lexed? && Lex(s, p, d).token.kind == Quoted
    ensures TokenFits(s, Lex(s, p, d).token, d)
  {
    hide Undouble, Upper, IsUpper, IsSlashLine, IsDigit, Inner, QuoteEnd, BracketEnd, LineEnd, BlockEnd, TerminatorEnd,
         EndsQuote, EndsBracket;
    QuoteEndEnds(s, p + 1, p + 1, s[p]);
    BracketStarts(s, p);
    UpperIsUpper(Lex(s, p, d).token.text);
  }

  lemma LexedTokenFits(s: string, p: nat, d: Dialect)
    requires p < |s| && Lex(s, p, d).Lexed?
    ensures TokenFits(s, Lex(s, p, d).token, d)
  {
    hide Lex, TokenFits;
    match Lex(s, p, d).token.kind
    case Word => RunFits(s, p, d);
    case Number => RunFits(s, p, d);
    case StringLiteral => StringTokenFits(s, p, d);
    case Quoted => QuotedTokenFits(s, p, d);
    case Symbol => SymbolFits(s, p, d);
    case SlashLine => SlashFits(s, p, d);
  }

  lemma BracketStarts(s: string, p: nat)
    requires p < |s|
    ensures s[p] == '[' ==> EndsBracket(s, p + 1, BracketEnd(s, p))
  {
    BracketEndEnds(s, p + 1);
  }

  lemma PartitionAfterGap(s: string, p: nat, e: nat, ts: seq<Token>, d: Dialect)
    requires p < e <= |s| && Partition(s, e, ts, d)
    requires IsComment(s, p, e, d) || (BlankByte(s[p]) && e == p + 1)
    ensures Partition(s, p, ts, d)
  {
    hide IsComment;
    var b := if ts == [] then |s| else ts[0].start;
    assert OnlyGaps(s, e, b, d);
    assert OnlyGaps(s, p, b, d);
  }

  /** The tokenizer partitions the script. */
  lemma {:induction false} TokensPartitionTheScript(s: string, p: nat, d: Dialect)
    requires p <= |s| && Tokenize(s, p, d).Tokens?
    ensures Partition(s, p, Tokenize(s, p, d).tokens, d)
    decreases |s| - p
  {
    hide Lex, TokenFits;
    if p < |s| {
      var l := Lex(s, p, d);
      TokensPartitionTheScript(s, EndOf(l), d);
      if l.Gap? {
        GapIsBlankOrComment(s, p, d);
        PartitionAfterGap(s, p, l.end, Tokenize(s, l.end, d).tokens, d);
      } else {
        LexedTokenFits(s, p, d);
        assert Tokenize(s, p, d).tokens[1..] == Tokenize(s, l.token.end, d).tokens;
      }
    }
  }

  /** Tokens of a partition are ordered and disjoint, whatever their distance. */
  lemma {:induction false} PartitionIsOrdered(s: string, p: nat, ts: seq<Token>, d: Dialect, i: nat, j: nat)
    requires p <= |s| && Partition(s, p, ts, d) && i < j < |ts|
    ensures p <= ts[i].start < ts[i].end <= ts[j].start
    decreases |ts|
  {
    hide OnlyGaps;
    if i > 0 {
      PartitionIsOrdered(s, ts[0].end, ts[1..], d, i - 1, j - 1);
    } else if j > 1 {
      PartitionIsOrdered(s, ts[0].end, ts[1..], d, 0, j - 1);
    }
  }

  // ----- scripts the tokenizer cannot finish -----

  /** The one way to get stuck: an Oracle script that ends in `q'` where the `q` begins a lexeme. */
  lemma {:induction false} StuckAtTheEnd(s: string, p: nat, d: Dialect)
    requires p <= |s| && Tokenize(s, p, d).StuckAt?
    ensures d.plsqlBlocks && |s| >= 2
    ensures Tokenize(s, p, d) == StuckAt(|s| - 2) && p <= |s| - 2
    ensures s[|s| - 1] == '\'' && (s[|s| - 2] == 'q' || s[|s| - 2] == 'Q')
    decreases |s| - p
  {
    if p < |s| && !Lex(s, p, d).Stuck? {
      hide Lex;
      StuckAtTheEnd(s, EndOf(Lex(s, p, d)), d);
    }
  }

  /** Slash lines before the final `q'` do not depend on the apostrophe. */
  lemma SlashLineWithoutApostrophe(s: string, p: nat)
    requires |s| >= 2 && p < |s| - 2 && (s[|s| - 2] == 'q' || s[|s| - 2] == 'Q') && s[|s| - 1] == '\''
    ensures IsSlashLine(s[..|s| - 1], p) == IsSlashLine(s, p)
  {
    var t := s[..|s| - 1];
    LineStartOfPrefix(s, t, p);
    assert s[LineStart(s, p)..p] == t[LineStart(t, p)..p];
    LineStopOfPrefix(s, t, p + 1);
    var e, e' := LineStop(s, p + 1), LineStop(t, p + 1);
    if e' < |t| {
      assert s[p + 1..e] == t[p + 1..e'];
    } else {
      assert t[p + 1..e'][|t| - 1 - (p + 1)] == s[|s| - 2];
      assert s[p + 1..e][|t| - 1 - (p + 1)] == s[|s| - 2];
    }
  }

  lemma {:induction false} LineStartOfPrefix(s: string, t: string, p: nat)
    requires t <= s && p <= |t|
    ensures LineStart(s, p) == LineStart(t, p)
  {
    if p > 0 && s[p - 1] != '\n' {
      LineStartOfPrefix(s, t, p - 1);
    }
  }

  lemma {:induction false} LineStopOfPrefix(s: string, t: string, p: nat)
    requires t <= s && p <= |t|
    ensures if LineStop(t, p) < |t| then LineStop(s, p) == LineStop(t, p) else LineStop(s, p) >= |t|
    decreases |t| - p
  {
    if p < |t| && s[p] != '\n' {
      LineStopOfPrefix(s, t, p + 1);
    }
  }

  predicate EndsInOpenQuote(s: string) {
    |s| >= 2 && s[|s| - 1] == '\'' && (s[|s| - 2] == 'q' || s[|s| - 2] == 'Q')
  }

  /** Without the final apostrophe every lexeme that stops before the `q` is the same. */
  lemma LexWithoutApostrophe(s: string, p: nat, d: Dialect)
    requires EndsInOpenQuote(s) && p < |s| - 2
    ensures !Lex(s, p, d).Stuck? && !Lex(s[..|s| - 1], p, d).Stuck?
    ensures var e, e' := EndOf(Lex(s, p, d)), EndOf(Lex(s[..|s| - 1], p, d));
            if e <= |s| - 2 then Lex(s[..|s| - 1], p, d) == Lex(s, p, d) else e' == |s| - 1
  {
    var t := s[..|s| - 1];
    SlashLineWithoutApostrophe(s, p);
    hide IsSlashLine;
    assert !StartsAlternativeQuote(s, p, d) || p + 2 < |s| - 1;
    hide Lex, StartsAlternativeQuote;
    NotStuck(s, p, d);
    NotStuck(t, p, d);
    var e, e' := EndOf(Lex(s, p, d)), EndOf(Lex(t, p, d));
    if e <= |s| - 2 {
      LexLocal(s, p, t, 0, d);
    } else if e' < |t| {
      LexLocal(t, p, s, 0, d);
    }
  }

  lemma NotStuck(s: string, p: nat, d: Dialect)
    requires p < |s| && (p + 2 != |s| || !StartsAlternativeQuote(s, p, d))
    ensures !Lex(s, p, d).Stuck?
  {
  }

  /** The last token of a scan. */
  predicate EndsWithWordAt(r: Scanned, p: nat) {
    r.Tokens? && r.tokens != [] && r.tokens[|r.tokens| - 1].start == p && r.tokens[|r.tokens| - 1].kind == Word
  }

  lemma LastOfPrepended(t: Token, rest: Scanned, p: nat)
    requires t.start != p
    ensures EndsWithWordAt(Prepend(t, rest), p) == EndsWithWordAt(rest, p)
  {
  }

  lemma AtTheOpenQuote(s: string, d: Dialect)
    requires EndsInOpenQuote(s) && d.plsqlBlocks
    ensures Tokenize(s, |s| - 2, d).StuckAt?
    ensures EndsWithWordAt(Tokenize(s[..|s| - 1], |s| - 2, d), |s| - 2)
  {
    hide IsSlashLine, Upper, Undouble, Inner;
    var t := s[..|s| - 1];
    assert Lex(s, |s| - 2, d).Stuck?;
    assert Lex(t, |s| - 2, d) == Lexed(SliceToken(Word, t, |s| - 2, |s| - 1));
    assert Tokenize(t, |t|, d) == Tokens([]);
  }

  lemma {:induction false} StuckFrom(s: string, p: nat, d: Dialect)
    requires EndsInOpenQuote(s) && d.plsqlBlocks && p <= |s| - 2
    ensures Tokenize(s, p, d).StuckAt? <==> EndsWithWordAt(Tokenize(s[..|s| - 1], p, d), |s| - 2)
    decreases |s| - p
  {
    hide Lex, EndsWithWordAt;
    var t := s[..|s| - 1];
    if p == |s| - 2 {
      AtTheOpenQuote(s, d);
    } else {
      LexWithoutApostrophe(s, p, d);
      var l, l' := Lex(s, p, d), Lex(t, p, d);
      if l'.Lexed? {
        LastOfPrepended(l'.token, Tokenize(t, l'.token.end, d), |s| - 2);
      }
      if EndOf(l) <= |s| - 2 {
        StuckFrom(s, EndOf(l), d);
      } else {
        if Tokenize(s, EndOf(l), d).StuckAt? {
          StuckAtTheEnd(s, EndOf(l), d);
        }
        NoWordAtTheEnd(t, d, |s| - 2);
      }
    }
  }

  lemma NoWordAtTheEnd(t: string, d: Dialect, p: nat)
    ensures !EndsWithWordAt(Tokenize(t, |t|, d), p)
  {
  }

  /** The tokenizer fails on a script exactly when the dialect is Oracle's, the script ends in `q'`, and without
      that apostrophe its last token is the one-letter word `q`. */
  lemma StuckExactly(s: string, d: Dialect)
    ensures Tokenize(s, 0, d).StuckAt?
       <==> d.plsqlBlocks && EndsInOpenQuote(s) && EndsWithWordAt(Tokenize(s[..|s| - 1], 0, d), |s| - 2)
  {
    hide EndsWithWordAt, Tokenize;
    if Tokenize(s, 0, d).StuckAt? {
      StuckAtTheEnd(s, 0, d);
    }
    if d.plsqlBlocks && EndsInOpenQuote(s) {
      StuckFrom(s, 0, d);
    }
  }

  /** The shortest such script. */
  lemma StuckExample()
    ensures Tokenize("q'", 0, ORACLE) == StuckAt(0)
  {
    assert StartsAlternativeQuote("q'", 0, ORACLE);
  }
}
