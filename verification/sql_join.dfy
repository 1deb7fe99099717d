/** Joining the statements of a script with semicolons and splitting again gives the same statements. */
module SqlJoin {
  import opened TextLines
  import opened SqlLexer
  import opened SqlLocality
  import opened SqlPartition
  import opened SqlStatements
  import opened SqlConservation

  // ----- what splitting reads of a token -----

  /** The tokens differ at most in where they stand. */
  predicate Alike(a: seq<Token>, b: seq<Token>) {
    |a| == |b|
    && forall i | 0 <= i < |a| :: a[i].kind == b[i].kind && a[i].text == b[i].text && a[i].upper == b[i].upper
  }

  lemma {:induction false} AlikeWords(a: seq<Token>, b: seq<Token>, count: nat)
    requires Alike(a, b)
    ensures LeadingWords(a, count) == LeadingWords(b, count)
  {
    if count > 0 && a != [] {
      AlikeWords(a[1..], b[1..], count - 1);
    }
  }

  lemma {:induction false} AlikeNesting(a: seq<Token>, b: seq<Token>, d: Dialect)
    requires Alike(a, b)
    ensures Nesting(a, d) == Nesting(b, d)
  {
    if a != [] {
      hide TriggerWords;
      AlikeNesting(a[..|a| - 1], b[..|a| - 1], d);
      AlikeWords(a[..|a| - 1], b[..|a| - 1], 3);
    }
  }

  lemma AlikeSeparates(a: seq<Token>, b: seq<Token>, t: Token, u: Token, d: Dialect)
    requires Alike(a, b) && t.kind == u.kind && t.text == u.text
    ensures Separates(a, t, d) == Separates(b, u, d)
  {
    hide TriggerWords, BlockWords, Nesting;
    AlikeNesting(a, b, d);
    AlikeWords(a, b, 6);
    AlikeWords(a, b, 3);
  }

  lemma AlikeUnbroken(a: seq<Token>, b: seq<Token>, d: Dialect)
    requires Alike(a, b) && Unbroken(a, d)
    ensures Unbroken(b, d)
  {
    hide Separates;
    forall k | 0 <= k < |b|
      ensures !Separates(b[..k], b[k], d)
    {
      assert !Separates(a[..k], a[k], d);
      AlikeSeparates(a[..k], b[..k], a[k], b[k], d);
    }
  }

  lemma MovedAlike(a: seq<Token>, o: int)
    requires CanMove(a, o)
    ensures Alike(a, Move(a, o))
  {
  }

  // ----- pieces -----

  /** A statement on its own: its bytes, and its tokens counted from its first byte. */
  datatype Piece = Piece(slice: string, tokens: seq<Token>)

  function SemicolonAt(p: nat): Token {
    Token(Symbol, p, p + 1, 0, ";", ";")
  }

  /** The bytes alone give the tokens, and splitting would not break them. */
  predicate Whole(x: Piece, d: Dialect) {
    && x.tokens != []
    && LexRange(x.slice, 0, |x.slice|, d) == Some(x.tokens)
    && Unbroken(x.tokens, d)
  }

  /** In front of a semicolon the bytes still give the tokens, and the semicolon ends the statement. */
  predicate Closable(x: Piece, d: Dialect) {
    LexRange(x.slice + ";", 0, |x.slice|, d) == Some(x.tokens) && Separates(x.tokens, SemicolonAt(0), d)
  }

  predicate Joinable(pieces: seq<Piece>, d: Dialect) {
    forall k | 0 <= k < |pieces| :: Whole(pieces[k], d) && (k + 1 < |pieces| ==> Closable(pieces[k], d))
  }

  function JoinPieces(pieces: seq<Piece>): string {
    if pieces == [] then ""
    else if |pieces| == 1 then pieces[0].slice
    else pieces[0].slice + ";\n" + JoinPieces(pieces[1..])
  }

  /** The tokens of the joined pieces when the first stands at `p`. */
  function JoinedTokens(pieces: seq<Piece>, p: nat): seq<Token> {
    if pieces == [] then []
    else if |pieces| == 1 then Move(pieces[0].tokens, p)
    else
      var e := p + |pieces[0].slice|;
      Move(pieces[0].tokens, p) + ([SemicolonAt(e)] + JoinedTokens(pieces[1..], e + 2))
  }

  // ----- tokenizing the joined script -----

  /** A piece's tokens are read where its bytes stand, at the end. */
  lemma LastPieceRead(x: Piece, t: string, p: nat, d: Dialect)
    requires Whole(x, d) && !d.plsqlBlocks
    requires p + |x.slice| == |t| && t[p..] == x.slice
    ensures Tokenize(t, p, d) == Tokens(Move(x.tokens, p))
  {
    hide LexRange, Unbroken;
    assert forall i | 0 <= i < |x.slice| :: x.slice[i] == t[p..][i] == t[i + p];
    RangeLocal(x.slice, 0, |x.slice|, t, p, d);
    TokenizeThrough(t, p, |t|, d);
    assert Move(x.tokens, p) + [] == Move(x.tokens, p);
  }

  lemma SemicolonRead(t: string, p: nat, d: Dialect)
    requires p + 1 < |t| && t[p] == ';' && t[p + 1] == '\n' && !d.plsqlBlocks
    ensures Tokenize(t, p, d) == Prepend(SemicolonAt(p), Tokenize(t, p + 2, d))
  {
    hide IsSlashLine, Undouble, Upper, Inner;
    assert Lex(t, p, d) == Lexed(SemicolonAt(p));
    assert Lex(t, p + 1, d) == Gap(p + 2);
    hide Lex;
  }

  /** A piece's tokens are read where its bytes stand, in front of a semicolon. */
  lemma PieceRead(x: Piece, t: string, p: nat, rest: seq<Token>, d: Dialect)
    requires Closable(x, d) && !d.plsqlBlocks
    requires p + |x.slice| + 2 <= |t| && t[p..p + |x.slice|] == x.slice
    requires t[p + |x.slice|] == ';' && t[p + |x.slice| + 1] == '\n'
    requires Tokenize(t, p + |x.slice| + 2, d) == Tokens(rest)
    ensures Tokenize(t, p, d) == Tokens(Move(x.tokens, p) + ([SemicolonAt(p + |x.slice|)] + rest))
  {
    hide LexRange, Separates, Tokenize;
    var s := x.slice + ";";
    var e := p + |x.slice|;
    assert forall i | 0 <= i < |x.slice| :: s[i] == x.slice[i] == t[p..e][i] == t[i + p];
    RangeLocal(s, 0, |x.slice|, t, p, d);
    TokenizeThrough(t, p, e, d);
    SemicolonRead(t, e, d);
  }

  /** The parts of a joined text. */
  lemma JoinedParts(pieces: seq<Piece>, t: string, p: nat)
    requires |pieces| > 1 && p <= |t| && t[p..] == JoinPieces(pieces)
    ensures var e := p + |pieces[0].slice|;
            && e + 2 <= |t| && t[p..e] == pieces[0].slice && t[e] == ';' && t[e + 1] == '\n'
            && t[e + 2..] == JoinPieces(pieces[1..])
  {
    var slice, tail := pieces[0].slice, JoinPieces(pieces[1..]);
    var rest := t[p..];
    assert rest == slice + ";\n" + tail;
    assert rest[..|slice|] == slice && rest[|slice|] == ';' && rest[|slice| + 1] == '\n' && rest[|slice| + 2..] == tail;
    assert t[p..p + |slice|] == rest[..|slice|];
    assert t[p + |slice| + 2..] == rest[|slice| + 2..];
  }

  lemma JoinableHead(pieces: seq<Piece>, d: Dialect)
    requires Joinable(pieces, d) && pieces != []
    ensures Whole(pieces[0], d) && Joinable(pieces[1..], d)
    ensures |pieces| > 1 ==> Closable(pieces[0], d)
  {
    hide Whole, Closable;
  }

  lemma JoinedTokensCons(pieces: seq<Piece>, p: nat)
    requires |pieces| > 1
    ensures var e := p + |pieces[0].slice|;
            JoinedTokens(pieces, p) == Move(pieces[0].tokens, p) + ([SemicolonAt(e)] + JoinedTokens(pieces[1..], e + 2))
  {
  }

  lemma OneJoined(pieces: seq<Piece>, t: string, p: nat, d: Dialect)
    requires Joinable(pieces, d) && !d.plsqlBlocks && |pieces| <= 1
    requires p <= |t| && t[p..] == JoinPieces(pieces)
    ensures Tokenize(t, p, d) == Tokens(JoinedTokens(pieces, p))
  {
    hide Tokenize, Whole, Closable;
    assert |t[p..]| == |t| - p;
    if pieces == [] {
      NothingToRead(t, d);
    } else {
      LastPieceRead(pieces[0], t, p, d);
    }
  }

  lemma NothingToRead(t: string, d: Dialect)
    ensures Tokenize(t, |t|, d) == Tokens([])
  {
  }

  lemma {:induction false} JoinedTokenize(pieces: seq<Piece>, t: string, p: nat, d: Dialect)
    requires Joinable(pieces, d) && !d.plsqlBlocks
    requires p <= |t| && t[p..] == JoinPieces(pieces)
    ensures Tokenize(t, p, d) == Tokens(JoinedTokens(pieces, p))
    decreases |pieces|
  {
    hide Tokenize, Joinable, Whole, Closable, JoinedTokens, JoinPieces, Move;
    if |pieces| <= 1 {
      OneJoined(pieces, t, p, d);
    } else {
      var next := p + |pieces[0].slice| + 2;
      JoinableHead(pieces, d);
      JoinedParts(pieces, t, p);
      JoinedTokenize(pieces[1..], t, next, d);
      PieceRead(pieces[0], t, p, JoinedTokens(pieces[1..], next), d);
      JoinedTokensCons(pieces, p);
    }
  }

  // ----- splitting the joined tokens -----

  function JoinedRanges(pieces: seq<Piece>, q: nat): (r: seq<Range>)
    ensures |r| == |pieces|
  {
    if pieces == [] then []
    else [Range(q, q + |pieces[0].tokens|)] + JoinedRanges(pieces[1..], q + |pieces[0].tokens| + 1)
  }

  lemma WholeSplit(x: Piece, all: seq<Token>, p: nat, q: nat, d: Dialect)
    requires Whole(x, d) && q + |x.tokens| <= |all| && all[q..q + |x.tokens|] == Move(x.tokens, p)
    ensures SplitRanges(all, q, q, d) == SplitRanges(all, q, q + |x.tokens|, d)
    ensures x.tokens != []
  {
    hide Unbroken, LexRange, Alike;
    MovedAlike(x.tokens, p);
    AlikeUnbroken(x.tokens, Move(x.tokens, p), d);
    ReadUnbroken(all, q, q, q + |x.tokens|, d);
  }

  lemma ClosedSplit(x: Piece, all: seq<Token>, p: nat, q: nat, e: nat, d: Dialect)
    requires Closable(x, d) && q + |x.tokens| < |all| && all[q..q + |x.tokens|] == Move(x.tokens, p)
    requires x.tokens != [] && all[q + |x.tokens|] == SemicolonAt(e)
    ensures var n := q + |x.tokens|;
            SplitRanges(all, q, n, d) == [Range(q, n)] + SplitRanges(all, n + 1, n + 1, d)
  {
    hide LexRange, Alike, Separates;
    MovedAlike(x.tokens, p);
    AlikeSeparates(x.tokens, Move(x.tokens, p), SemicolonAt(0), SemicolonAt(e), d);
  }

  /** The parts of joined tokens. */
  lemma JoinedTokenParts(pieces: seq<Piece>, p: nat, all: seq<Token>, q: nat)
    requires pieces != [] && q <= |all| && all[q..] == JoinedTokens(pieces, p)
    ensures var n := q + |pieces[0].tokens|;
            && n <= |all| && all[q..n] == Move(pieces[0].tokens, p)
            && if |pieces| == 1 then n == |all|
               else n < |all| && all[n] == SemicolonAt(p + |pieces[0].slice|)
                    && all[n + 1..] == JoinedTokens(pieces[1..], p + |pieces[0].slice| + 2)
  {
    hide Move;
    var moved, rest := Move(pieces[0].tokens, p), all[q..];
    assert rest[..|moved|] == moved;
    assert all[q..q + |moved|] == rest[..|moved|];
    if |pieces| > 1 {
      assert rest[|moved| + 1..] == JoinedTokens(pieces[1..], p + |pieces[0].slice| + 2);
      assert all[q + |moved| + 1..] == rest[|moved| + 1..];
    }
  }

  lemma OneSplit(pieces: seq<Piece>, p: nat, all: seq<Token>, q: nat, d: Dialect)
    requires Joinable(pieces, d) && |pieces| <= 1
    requires q <= |all| && all[q..] == JoinedTokens(pieces, p)
    ensures SplitRanges(all, q, q, d) == JoinedRanges(pieces, q)
  {
    hide Whole, Closable, Move;
    if pieces == [] {
      assert |all[q..]| == |all| - q;
    } else {
      JoinableHead(pieces, d);
      JoinedTokenParts(pieces, p, all, q);
      WholeSplit(pieces[0], all, p, q, d);
      assert JoinedRanges(pieces[1..], q + |pieces[0].tokens| + 1) == [];
    }
  }

  lemma {:induction false} JoinedSplit(pieces: seq<Piece>, p: nat, all: seq<Token>, q: nat, d: Dialect)
    requires Joinable(pieces, d)
    requires q <= |all| && all[q..] == JoinedTokens(pieces, p)
    ensures SplitRanges(all, q, q, d) == JoinedRanges(pieces, q)
    decreases |pieces|
  {
    hide Joinable, Whole, Closable, JoinedTokens, Move, SplitRanges;
    if |pieces| <= 1 {
      OneSplit(pieces, p, all, q, d);
    } else {
      var x := pieces[0];
      JoinableHead(pieces, d);
      JoinedTokenParts(pieces, p, all, q);
      WholeSplit(x, all, p, q, d);
      ClosedSplit(x, all, p, q, p + |x.slice|, d);
      JoinedSplit(pieces[1..], p + |x.slice| + 2, all, q + |x.tokens| + 1, d);
    }
  }
}
