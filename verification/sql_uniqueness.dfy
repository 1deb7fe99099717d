/** The tokens of a script are the only ones that partition it. */
module SqlUniqueness {
  import opened TextLines
  import opened SqlLexer
  import opened SqlLocality
  import opened SqlPartition

  // ----- an end is the only one -----

  lemma OneQuoteEnd(s: string, p: nat, e: nat, f: nat, quote: char)
    requires EndsQuote(s, p, e, quote) && EndsQuote(s, p, f, quote)
    ensures e == f
  {
    hide Closes;
  }

  lemma OneBracketEnd(s: string, p: nat, e: nat, f: nat)
    requires EndsBracket(s, p, e) && EndsBracket(s, p, f)
    ensures e == f
  {
  }

  lemma OneAlternativeEnd(s: string, p: nat, e: nat, f: nat, opening: char)
    requires EndsAlternative(s, p, e, opening) && EndsAlternative(s, p, f, opening)
    ensures e == f
  {
    hide Terminates;
  }

  lemma OneLineEnd(s: string, a: nat, e: nat, f: nat, d: Dialect)
    requires IsLineComment(s, a, e, d) && IsLineComment(s, a, f, d)
    ensures e == f
  {
  }

  lemma OneBlockEnd(s: string, a: nat, e: nat, f: nat)
    requires IsBlockComment(s, a, e) && IsBlockComment(s, a, f)
    ensures e == f
  {
    hide EndsBlock;
  }

  lemma OneCommentEnd(s: string, a: nat, e: nat, f: nat, d: Dialect)
    requires IsComment(s, a, e, d) && IsComment(s, a, f, d)
    ensures e == f
  {
    if IsLineComment(s, a, e, d) && IsLineComment(s, a, f, d) {
      OneLineEnd(s, a, e, f, d);
    } else if IsBlockComment(s, a, e) && IsBlockComment(s, a, f) {
      OneBlockEnd(s, a, e, f);
    }
  }

  // ----- gaps -----

  lemma CommentIsLexed(s: string, a: nat, e: nat, d: Dialect)
    requires IsComment(s, a, e, d)
    ensures a < |s| && Lex(s, a, d) == Gap(e)
  {
    CommentStarts(s, a, e, d);
    hide Lex, IsComment;
    GapIsBlankOrComment(s, a, d);
    OneCommentEnd(s, a, e, EndOf(Lex(s, a, d)), d);
  }

  lemma CommentStarts(s: string, a: nat, e: nat, d: Dialect)
    requires IsComment(s, a, e, d)
    ensures a < |s| && Lex(s, a, d).Gap? && !BlankByte(s[a])
  {
    hide LineEnd, BlockEnd, EndsBlock;
  }

  lemma BlankIsLexed(s: string, a: nat, d: Dialect)
    requires a < |s| && BlankByte(s[a])
    ensures Lex(s, a, d) == Gap(a + 1)
  {
  }

  /** The first step through a gap. */
  lemma GapIsLexed(s: string, a: nat, b: nat, d: Dialect)
    requires a < b <= |s| && OnlyGaps(s, a, b, d)
    ensures var l := Lex(s, a, d); l.Gap? && a < l.end <= b && OnlyGaps(s, l.end, b, d)
  {
    hide Lex, IsComment;
    if BlankByte(s[a]) && OnlyGaps(s, a + 1, b, d) {
      BlankIsLexed(s, a, d);
    } else {
      var e :| a < e <= b && IsComment(s, a, e, d) && OnlyGaps(s, e, b, d);
      CommentIsLexed(s, a, e, d);
    }
  }

  // ----- tokens -----

  /** What the first bytes of a token are. */
  lemma TokenStarts(s: string, t: Token, d: Dialect)
    requires TokenFits(s, t, d)
    ensures !BlankByte(s[t.start]) && !DashesAt(s, t.start, d)
    ensures !(ByteAt(s, t.start, '/') && ByteAt(s, t.start + 1, '*'))
    ensures QAt(s, t.start, d) ==> t.start + 2 < |s|
  {
    hide EndsQuote, EndsBracket, EndsAlternative, IsUpper, Undouble, Inner;
  }

  /** A token is lexed as some token. */
  lemma TokenIsLexed(s: string, t: Token, d: Dialect)
    requires TokenFits(s, t, d)
    ensures Lex(s, t.start, d).Lexed?
  {
    TokenStarts(s, t, d);
    hide TokenFits, LineEnd, BlockEnd, QuoteEnd, BracketEnd, Upper, Undouble, Inner, IsSlashLine, WordEnd, NumberEnd,
         TerminatorEnd;
  }

  /** The first bytes decide the kind. */
  lemma SameKind(s: string, t: Token, u: Token, d: Dialect)
    requires TokenFits(s, t, d) && TokenFits(s, u, d) && t.start == u.start
    ensures t.kind == u.kind
  {
    hide EndsQuote, EndsBracket, EndsAlternative, IsUpper, Undouble, Inner;
  }

  lemma SameUpper(text: string, u: string, v: string)
    requires IsUpper(text, u) && IsUpper(text, v)
    ensures u == v
  {
  }

  /** The kind and the start decide the rest. */
  lemma SameToken(s: string, t: Token, u: Token, d: Dialect)
    requires TokenFits(s, t, d) && TokenFits(s, u, d) && t.start == u.start && t.kind == u.kind
    ensures t == u
  {
    SameEnd(s, t, u, d);
    hide EndsQuote, EndsBracket, EndsAlternative, IsUpper, Undouble, Inner;
    if t.kind == Word || t.kind == Quoted {
      SameUpper(t.text, t.upper, u.upper);
    }
  }

  lemma SameEnd(s: string, t: Token, u: Token, d: Dialect)
    requires TokenFits(s, t, d) && TokenFits(s, u, d) && t.start == u.start && t.kind == u.kind
    ensures t.end == u.end
  {
    hide EndsQuote, EndsBracket, EndsAlternative, IsUpper, Undouble, Inner;
    if t.kind == StringLiteral && QAt(s, t.start, d) {
      OneAlternativeEnd(s, t.start + 3, t.end, u.end, s[t.start + 2]);
    } else if t.kind == StringLiteral {
      OneQuoteEnd(s, t.start + 1, t.end, u.end, '\'');
    } else if t.kind == Quoted && s[t.start] == '[' {
      OneBracketEnd(s, t.start + 1, t.end, u.end);
    } else if t.kind == Quoted {
      OneQuoteEnd(s, t.start + 1, t.end, u.end, s[t.start]);
    }
  }

  lemma FittingIsLexed(s: string, t: Token, d: Dialect)
    requires TokenFits(s, t, d)
    ensures t.start < |s| && Lex(s, t.start, d) == Lexed(t)
  {
    TokenIsLexed(s, t, d);
    LexedTokenFits(s, t.start, d);
    SameKind(s, t, Lex(s, t.start, d).token, d);
    SameToken(s, t, Lex(s, t.start, d).token, d);
  }

  // ----- the whole script -----

  lemma {:induction false} PartitionIsTokenized(s: string, p: nat, ts: seq<Token>, d: Dialect)
    requires p <= |s| && Partition(s, p, ts, d)
    ensures Tokenize(s, p, d) == Tokens(ts)
    decreases |s| - p
  {
    hide Lex, TokenFits, OnlyGaps;
    var b := if ts == [] then |s| else ts[0].start;
    if p < b {
      TokenInside(s, ts, d);
      GapIsLexed(s, p, b, d);
      PartitionIsTokenized(s, EndOf(Lex(s, p, d)), ts, d);
    } else if ts != [] {
      FittingIsLexed(s, ts[0], d);
      PartitionIsTokenized(s, ts[0].end, ts[1..], d);
      assert ts == [ts[0]] + ts[1..];
    }
  }

  lemma TokenInside(s: string, ts: seq<Token>, d: Dialect)
    requires ts != [] ==> TokenFits(s, ts[0], d)
    ensures ts != [] ==> ts[0].start < |s|
  {
  }

  /** The tokenizer gives these tokens exactly when they partition the script; a script without such tokens stops it. */
  lemma TokenizedExactly(s: string, d: Dialect, ts: seq<Token>)
    ensures Tokenize(s, 0, d) == Tokens(ts) <==> Partition(s, 0, ts, d)
  {
    hide Tokenize, Partition;
    if Tokenize(s, 0, d).Tokens? {
      TokensPartitionTheScript(s, 0, d);
    }
    if Partition(s, 0, ts, d) {
      PartitionIsTokenized(s, 0, ts, d);
    }
  }
}
