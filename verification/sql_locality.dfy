/** A lexeme depends only on its own bytes and the one after it, so a stretch of a script that starts and
    ends between lexemes reads the same wherever it stands. */
module SqlLocality {
  import opened TextLines
  import opened SqlLexer

  /** The stretch `k..n` of `s` stands in `t`, moved by `o`. */
  predicate Agree(s: string, k: nat, n: nat, t: string, o: int) {
    && k <= n <= |s| && 0 <= k + o && n + o <= |t|
    && forall i | k <= i < n :: s[i] == t[i + o]
  }

  /** What may follow a lexeme that ends at `e`: in both scripts the same byte or the end, or in `t` a semicolon
      or the end although `s` goes on. */
  predicate Follows(s: string, e: nat, t: string, o: int)
    requires e <= |s| && 0 <= e + o <= |t|
  {
    if e == |s| then e + o == |t|
    else e + o == |t| || t[e + o] == ';' || t[e + o] == s[e]
  }

  // ----- the ends of lexemes -----

  lemma {:induction false} LineEndLocal(s: string, p: nat, t: string, o: int)
    requires p <= |s| && Agree(s, p, LineEnd(s, p), t, o) && Follows(s, LineEnd(s, p), t, o)
    ensures LineEnd(t, p + o) == LineEnd(s, p) + o
    decreases |s| - p
  {
    if p < |s| && s[p] != '\n' {
      LineEndLocal(s, p + 1, t, o);
    }
  }

  lemma {:induction false} BlockEndLocal(s: string, p: nat, t: string, o: int)
    requires p <= |s| && Agree(s, p, BlockEnd(s, p), t, o) && Follows(s, BlockEnd(s, p), t, o)
    ensures BlockEnd(t, p + o) == BlockEnd(s, p) + o
    decreases |s| - p
  {
    if p + 1 < |s| && !(s[p] == '*' && s[p + 1] == '/') {
      BlockEndLocal(s, p + 1, t, o);
    }
  }

  lemma {:induction false} QuoteEndLocal(s: string, p: nat, quote: char, t: string, o: int)
    requires quote != ';'
    requires p <= |s| && Agree(s, p, QuoteEnd(s, p, quote), t, o) && Follows(s, QuoteEnd(s, p, quote), t, o)
    ensures QuoteEnd(t, p + o, quote) == QuoteEnd(s, p, quote) + o
    decreases |s| - p
  {
    if p < |s| {
      if s[p] != quote {
        QuoteEndLocal(s, p + 1, quote, t, o);
      } else if p + 1 < |s| && s[p + 1] == quote {
        QuoteEndLocal(s, p + 2, quote, t, o);
      }
    }
  }

  lemma {:induction false} BracketEndLocal(s: string, p: nat, t: string, o: int)
    requires p <= |s| && Agree(s, p, BracketEnd(s, p), t, o) && Follows(s, BracketEnd(s, p), t, o)
    ensures BracketEnd(t, p + o) == BracketEnd(s, p) + o
    decreases |s| - p
  {
    if p < |s| && s[p] != ']' {
      BracketEndLocal(s, p + 1, t, o);
    }
  }

  lemma {:induction false} WordEndLocal(s: string, p: nat, t: string, o: int)
    requires p <= |s| && Agree(s, p, WordEnd(s, p), t, o) && Follows(s, WordEnd(s, p), t, o)
    ensures WordEnd(t, p + o) == WordEnd(s, p) + o
    decreases |s| - p
  {
    if p < |s| && IsWordPart(s[p]) {
      WordEndLocal(s, p + 1, t, o);
    }
  }

  lemma {:induction false} NumberEndLocal(s: string, p: nat, t: string, o: int)
    requires p <= |s| && Agree(s, p, NumberEnd(s, p), t, o) && Follows(s, NumberEnd(s, p), t, o)
    ensures NumberEnd(t, p + o) == NumberEnd(s, p) + o
    decreases |s| - p
  {
    if p < |s| && IsNumberPart(s[p]) {
      NumberEndLocal(s, p + 1, t, o);
    }
  }

  lemma {:induction false} TerminatorEndLocal(s: string, p: nat, closing: char, t: string, o: int)
    requires p <= |s| && Agree(s, p, TerminatorEnd(s, p, closing), t, o)
             && Follows(s, TerminatorEnd(s, p, closing), t, o)
    ensures TerminatorEnd(t, p + o, closing) == TerminatorEnd(s, p, closing) + o
    decreases |s| - p
  {
    if p + 1 < |s| && !(s[p] == closing && s[p + 1] == '\'') {
      TerminatorEndLocal(s, p + 1, closing, t, o);
    }
  }

  // ----- one lexeme -----

  function MoveToken(t: Token, o: int): Token
    requires t.start + o >= 0 && t.end + o >= 0
  {
    t.(start := t.start + o, end := t.end + o)
  }

  function MoveLexeme(l: Lexeme, o: int): Lexeme
    requires l.Gap? ==> l.end + o >= 0
    requires l.Lexed? ==> l.token.start + o >= 0 && l.token.end + o >= 0
  {
    match l
    case Stuck => Stuck
    case Gap(e) => Gap(e + o)
    case Lexed(t) => Lexed(MoveToken(t, o))
  }

  /** What one lexeme at `k` of `s` needs to be read at `k + o` of `t` as well. */
  predicate Transfers(s: string, k: nat, t: string, o: int, d: Dialect) {
    && k < |s| && !Lex(s, k, d).Stuck?
    && var e := EndOf(Lex(s, k, d));
       && Agree(s, k, e, t, o) && Follows(s, e, t, o)
       && (d.plsqlBlocks && s[k] == '/' ==> IsSlashLine(s, k) == IsSlashLine(t, k + o))
  }

  /** The first byte, and what the byte after it decides. */
  lemma SameStart(s: string, k: nat, t: string, o: int, d: Dialect)
    requires Transfers(s, k, t, o, d)
    ensures k + o < |t| && t[k + o] == s[k]
    ensures StartsLineComment(t, k + o, d) == StartsLineComment(s, k, d)
    ensures StartsBlockComment(t, k + o) == StartsBlockComment(s, k)
    ensures StartsAlternativeQuote(t, k + o, d) == StartsAlternativeQuote(s, k, d)
    ensures StartsNumber(t, k + o) == StartsNumber(s, k)
  {
    var e := EndOf(Lex(s, k, d));
    if e == k + 1 {
      assert !StartsLineComment(s, k, d) || s[k] == '#';
    } else {
      assert s[k + 1] == t[k + 1 + o];
    }
  }

  lemma SameSlice(s: string, p: nat, e: nat, t: string, o: int)
    requires p < e && Agree(s, p, e, t, o)
    ensures t[p + o..e + o] == s[p..e]
    ensures Inner(t, p + o, e + o) == Inner(s, p, e)
  {
  }

  lemma QuotedLocal(s: string, k: nat, t: string, o: int, d: Dialect)
    requires Transfers(s, k, t, o, d)
    requires s[k] == '\'' || IsQuoteChar(s[k], d)
    ensures Lex(t, k + o, d) == MoveLexeme(Lex(s, k, d), o)
  {
    SameStart(s, k, t, o, d);
    hide Undouble, Upper, IsSlashLine, LineEnd, BlockEnd, IsWordStart, IsDigit, Inner;
    var e := QuoteEnd(s, k + 1, s[k]);
    QuoteEndLocal(s, k + 1, s[k], t, o);
    SameSlice(s, k, e, t, o);
  }

  lemma BracketLocal(s: string, k: nat, t: string, o: int, d: Dialect)
    requires Transfers(s, k, t, o, d)
    requires s[k] == '[' && d.bracketIdentifier
    ensures Lex(t, k + o, d) == MoveLexeme(Lex(s, k, d), o)
  {
    SameStart(s, k, t, o, d);
    hide Undouble, Upper, IsSlashLine, LineEnd, BlockEnd, IsWordStart, IsDigit, Inner;
    var e := BracketEnd(s, k);
    BracketEndLocal(s, k, t, o);
    SameSlice(s, k, e, t, o);
  }

  lemma AlternativeLocal(s: string, k: nat, t: string, o: int, d: Dialect)
    requires Transfers(s, k, t, o, d)
    requires StartsAlternativeQuote(s, k, d)
    ensures Lex(t, k + o, d) == MoveLexeme(Lex(s, k, d), o)
  {
    SameStart(s, k, t, o, d);
    hide Undouble, Upper, IsSlashLine, LineEnd, BlockEnd, IsWordStart, IsDigit, Inner, ClosingOf;
    var e := AlternativeEnd(s, k);
    TerminatorEndLocal(s, k + 3, ClosingOf(s[k + 2]), t, o);
    SameSlice(s, k, e, t, o);
  }

  lemma RunLocal(s: string, k: nat, t: string, o: int, d: Dialect)
    requires Transfers(s, k, t, o, d)
    requires Lex(s, k, d).Lexed? && (Lex(s, k, d).token.kind == Word || Lex(s, k, d).token.kind == Number)
    ensures Lex(t, k + o, d) == MoveLexeme(Lex(s, k, d), o)
  {
    SameStart(s, k, t, o, d);
    if Lex(s, k, d).token.kind == Word {
      WordLocal(s, k, t, o, d);
    } else {
      NumberLocal(s, k, t, o, d);
    }
  }

  lemma WordLexed(s: string, k: nat, d: Dialect)
    requires k < |s|
    ensures Lex(s, k, d).Lexed? && Lex(s, k, d).token.kind == Word
            <==> IsWordStart(s[k]) && !StartsAlternativeQuote(s, k, d)
    ensures IsWordStart(s[k]) && !StartsAlternativeQuote(s, k, d)
            ==> Lex(s, k, d) == Lexed(SliceToken(Word, s, k, WordEnd(s, k + 1)))
  {
    hide Undouble, Upper, IsSlashLine, LineEnd, BlockEnd, Inner, AlternativeEnd, QuoteEnd, BracketEnd, NumberEnd,
         WordEnd;
  }

  lemma NumberLexed(s: string, k: nat, d: Dialect)
    requires k < |s|
    ensures Lex(s, k, d).Lexed? && Lex(s, k, d).token.kind == Number <==> StartsNumber(s, k)
    ensures StartsNumber(s, k) ==> Lex(s, k, d) == Lexed(SliceToken(Number, s, k, NumberEnd(s, k + 1)))
  {
    hide Undouble, Upper, IsSlashLine, LineEnd, BlockEnd, Inner, AlternativeEnd, QuoteEnd, BracketEnd, NumberEnd,
         WordEnd;
  }

  lemma WordLocal(s: string, k: nat, t: string, o: int, d: Dialect)
    requires Transfers(s, k, t, o, d)
    requires Lex(s, k, d).Lexed? && Lex(s, k, d).token.kind == Word
    ensures Lex(t, k + o, d) == MoveLexeme(Lex(s, k, d), o)
  {
    hide Lex, Upper, Inner, StartsLineComment, StartsBlockComment, StartsNumber, StartsAlternativeQuote, WordEnd;
    SameStart(s, k, t, o, d);
    WordLexed(s, k, d);
    WordLexed(t, k + o, d);
    WordEndLocal(s, k + 1, t, o);
    SameSlice(s, k, WordEnd(s, k + 1), t, o);
  }

  lemma NumberLocal(s: string, k: nat, t: string, o: int, d: Dialect)
    requires Transfers(s, k, t, o, d)
    requires Lex(s, k, d).Lexed? && Lex(s, k, d).token.kind == Number
    ensures Lex(t, k + o, d) == MoveLexeme(Lex(s, k, d), o)
  {
    hide Lex, Upper, Inner, StartsLineComment, StartsBlockComment, StartsNumber, StartsAlternativeQuote, NumberEnd;
    SameStart(s, k, t, o, d);
    NumberLexed(s, k, d);
    NumberLexed(t, k + o, d);
    NumberEndLocal(s, k + 1, t, o);
    SameSlice(s, k, NumberEnd(s, k + 1), t, o);
  }

  lemma CommentLocal(s: string, k: nat, t: string, o: int, d: Dialect)
    requires Transfers(s, k, t, o, d)
    requires StartsLineComment(s, k, d) || StartsBlockComment(s, k)
    ensures Lex(t, k + o, d) == MoveLexeme(Lex(s, k, d), o)
  {
    SameStart(s, k, t, o, d);
    hide Undouble, Upper, IsSlashLine, IsWordStart, IsDigit, Inner, AlternativeEnd, QuoteEnd, BracketEnd;
    if StartsLineComment(s, k, d) {
      LineEndLocal(s, k, t, o);
    } else {
      BlockEndLocal(s, k + 2, t, o);
    }
  }

  /** A lexeme reads the same wherever its bytes stand, in front of what may follow it. */
  lemma LexLocal(s: string, k: nat, t: string, o: int, d: Dialect)
    requires Transfers(s, k, t, o, d)
    ensures k + o < |t| && Lex(t, k + o, d) == MoveLexeme(Lex(s, k, d), o)
  {
    SameStart(s, k, t, o, d);
    if StartsLineComment(s, k, d) || StartsBlockComment(s, k) {
      CommentLocal(s, k, t, o, d);
    } else if StartsAlternativeQuote(s, k, d) {
      AlternativeLocal(s, k, t, o, d);
    } else if s[k] == '\'' || IsQuoteChar(s[k], d) {
      QuotedLocal(s, k, t, o, d);
    } else if s[k] == '[' && d.bracketIdentifier {
      BracketLocal(s, k, t, o, d);
    } else if IsWordStart(s[k]) || StartsNumber(s, k) {
      RunLocal(s, k, t, o, d);
    } else {
      hide Undouble, Upper, IsSlashLine, IsWordStart, Inner, AlternativeEnd, QuoteEnd, BracketEnd, StartsNumber;
    }
  }

  // ----- stretches of lexemes -----

  /** The tokens from `k` to `b`, when lexemes that start at `k` come to an end exactly at `b`. */
  function LexRange(s: string, k: nat, b: nat, d: Dialect): Option<seq<Token>>
    requires k <= |s| && b <= |s|
    decreases |s| - k
  {
    if k == b then Some([])
    else if k > b then None
    else
      var l := Lex(s, k, d);
      if l.Stuck? then None
      else
        var rest := LexRange(s, EndOf(l), b, d);
        if rest.None? then None
        else if l.Gap? then rest
        else Some([l.token] + rest.value)
  }

  function Move(tokens: seq<Token>, o: int): (r: seq<Token>)
    requires forall i | 0 <= i < |tokens| :: tokens[i].start + o >= 0 && tokens[i].end + o >= 0
    ensures |r| == |tokens|
    ensures forall i | 0 <= i < |tokens| :: r[i] == MoveToken(tokens[i], o)
  {
    if tokens == [] then [] else [MoveToken(tokens[0], o)] + Move(tokens[1..], o)
  }

  lemma {:induction false} RangeBounds(s: string, k: nat, b: nat, d: Dialect)
    requires k <= |s| && b <= |s| && LexRange(s, k, b, d).Some?
    ensures k <= b
    ensures forall i | 0 <= i < |LexRange(s, k, b, d).value| ::
              k <= LexRange(s, k, b, d).value[i].start < LexRange(s, k, b, d).value[i].end <= b
    decreases |s| - k
  {
    hide Lex;
    if k < b {
      RangeBounds(s, EndOf(Lex(s, k, d)), b, d);
    }
  }

  predicate CanMove(tokens: seq<Token>, o: int) {
    forall i | 0 <= i < |tokens| :: tokens[i].start + o >= 0 && tokens[i].end + o >= 0
  }

  lemma FirstOfRange(s: string, k: nat, b: nat, t: string, o: int, d: Dialect)
    requires k < b <= |s| && LexRange(s, k, b, d).Some? && !d.plsqlBlocks
    requires Agree(s, k, b, t, o) && Follows(s, b, t, o)
    ensures Transfers(s, k, t, o, d)
    ensures Agree(s, EndOf(Lex(s, k, d)), b, t, o)
    ensures 0 <= k + o && b + o <= |t|
  {
    hide Lex;
    var e := EndOf(Lex(s, k, d));
    RangeBounds(s, e, b, d);
    if e < b {
      assert s[e] == t[e + o];
    }
  }

  /** A stretch between lexeme boundaries has the same tokens wherever it stands. */
  lemma {:induction false} RangeLocal(s: string, k: nat, b: nat, t: string, o: int, d: Dialect)
    requires k <= |s| && b <= |s| && LexRange(s, k, b, d).Some? && !d.plsqlBlocks
    requires Agree(s, k, b, t, o) && Follows(s, b, t, o)
    ensures CanMove(LexRange(s, k, b, d).value, o)
    ensures LexRange(t, k + o, b + o, d) == Some(Move(LexRange(s, k, b, d).value, o))
    decreases |s| - k
  {
    RangeBounds(s, k, b, d);
    if k < b {
      FirstOfRange(s, k, b, t, o, d);
      LexLocal(s, k, t, o, d);
      hide Lex, Agree, Follows, Transfers;
      var l := Lex(s, k, d);
      RangeLocal(s, EndOf(l), b, t, o, d);
      assert l.Lexed? ==> LexRange(s, k, b, d).value == [l.token] + LexRange(s, EndOf(l), b, d).value;
    }
  }

  /** Tokenizing from `k` is reading the stretch to `m` and tokenizing from there. */
  lemma {:induction false} TokenizeThrough(s: string, k: nat, m: nat, d: Dialect)
    requires k <= |s| && m <= |s| && LexRange(s, k, m, d).Some?
    ensures Tokenize(s, k, d) == After(LexRange(s, k, m, d).value, Tokenize(s, m, d))
    decreases |s| - k
  {
    hide Lex;
    if k == m {
      NothingFirst(Tokenize(s, m, d));
    } else {
      var l := Lex(s, k, d);
      TokenizeThrough(s, EndOf(l), m, d);
      if l.Lexed? && Tokenize(s, m, d).Tokens? {
        var rest := LexRange(s, EndOf(l), m, d).value;
        assert [l.token] + (rest + Tokenize(s, m, d).tokens) == [l.token] + rest + Tokenize(s, m, d).tokens;
      }
    }
  }

  /** The first `j + 1` tokens are a stretch. */
  lemma {:induction false} FirstTokensAreARange(s: string, k: nat, d: Dialect, j: nat)
    requires k <= |s| && Tokenize(s, k, d).Tokens? && j < |Tokenize(s, k, d).tokens|
    ensures var ts := Tokenize(s, k, d).tokens;
            && k <= ts[j].start < ts[j].end <= |s|
            && LexRange(s, k, ts[j].end, d) == Some(ts[..j + 1])
    decreases |s| - k
  {
    hide Lex;
    var ts := Tokenize(s, k, d).tokens;
    var l := Lex(s, k, d);
    if l.Gap? {
      FirstTokensAreARange(s, l.end, d, j);
    } else if j == 0 {
      assert LexRange(s, l.token.end, l.token.end, d) == Some([]);
      assert ts[..1] == [l.token] + [];
    } else {
      FirstTokensAreARange(s, l.token.end, d, j - 1);
      var rest := Tokenize(s, l.token.end, d).tokens;
      assert ts[j] == rest[j - 1] && ts[..j + 1] == [l.token] + rest[..j];
    }
  }

  /** Any run of consecutive tokens is a stretch from the start of its first to the end of its last. */
  lemma {:induction false} TokensAreARange(s: string, k: nat, d: Dialect, i: nat, j: nat)
    requires k <= |s| && Tokenize(s, k, d).Tokens? && i <= j < |Tokenize(s, k, d).tokens|
    ensures var ts := Tokenize(s, k, d).tokens;
            && k <= ts[i].start <= |s| && ts[j].end <= |s|
            && LexRange(s, ts[i].start, ts[j].end, d) == Some(ts[i..j + 1])
    decreases |s| - k
  {
    hide Lex;
    var ts := Tokenize(s, k, d).tokens;
    var l := Lex(s, k, d);
    if l.Gap? {
      TokensAreARange(s, l.end, d, i, j);
    } else if i == 0 {
      FirstTokensAreARange(s, k, d, j);
      assert ts[0..j + 1] == ts[..j + 1];
    } else {
      TokensAreARange(s, l.token.end, d, i - 1, j - 1);
      var rest := Tokenize(s, l.token.end, d).tokens;
      assert ts[i] == rest[i - 1] && ts[j] == rest[j - 1] && ts[i..j + 1] == rest[i - 1..j];
    }
  }
}
