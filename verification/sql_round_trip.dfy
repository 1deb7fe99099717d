/** The split and join round trip for whole scripts, trigger bodies included. */
module SqlRoundTrip {
  import opened TextLines
  import opened SqlLexer
  import opened SqlLocality
  import opened SqlPartition
  import opened SqlStatements
  import opened SqlConservation
  import opened SqlJoin

  // ----- the pieces of a script -----

  /** Tokens counted from the first byte of their slice. */
  predicate Anchored(x: Piece) {
    x.tokens != [] && x.tokens[0].start == 0 && x.tokens[|x.tokens| - 1].end == |x.slice|
  }

  lemma {:induction false} MoveBack(a: seq<Token>, o: int)
    requires CanMove(a, o) && CanMove(Move(a, o), -o)
    ensures Move(Move(a, o), -o) == a
  {
    if a != [] {
      assert CanMove(a[1..], o);
      assert Move(a, o)[1..] == Move(a[1..], o);
      assert CanMove(Move(a[1..], o), -o);
      MoveBack(a[1..], o);
    }
  }

  /** A stretch of a script, on its own, reads as the same tokens. */
  lemma StretchIsWhole(s: string, a: seq<Token>, d: Dialect) returns (x: Piece)
    requires a != [] && a[0].start <= |s| && a[|a| - 1].end <= |s| && !d.plsqlBlocks
    requires LexRange(s, a[0].start, a[|a| - 1].end, d) == Some(a) && Unbroken(a, d)
    ensures a[0].start <= a[|a| - 1].end && CanMove(a, 0 - a[0].start)
    ensures x == Piece(s[a[0].start..a[|a| - 1].end], Move(a, 0 - a[0].start))
    ensures Whole(x, d) && Anchored(x) && Move(x.tokens, a[0].start) == a
  {
    hide Unbroken, LexRange, Alike;
    var k, b := a[0].start, a[|a| - 1].end;
    var back: int := 0 - (k as int);
    RangeBounds(s, k, b, d);
    x := Piece(s[k..b], Move(a, back));
    RangeLocal(s, k, b, x.slice, back, d);
    MovedAlike(a, back);
    AlikeUnbroken(a, x.tokens, d);
    MoveBack(a, back);
  }

  lemma SliceAgrees(s: string, k: nat, b: nat, tail: string)
    requires k <= b <= |s|
    ensures Agree(s, k, b, s[k..b] + tail, 0 - (k as int))
  {
    var t := s[k..b] + tail;
    assert forall i | k <= i < b :: t[i - k] == s[k..b][i - k] == s[i];
  }

  lemma StretchBeforeSemicolon(s: string, a: seq<Token>, slice: string, d: Dialect)
    requires a != [] && a[0].start <= a[|a| - 1].end < |s| && !d.plsqlBlocks && CanMove(a, 0 - a[0].start)
    requires LexRange(s, a[0].start, a[|a| - 1].end, d) == Some(a)
    requires slice == s[a[0].start..a[|a| - 1].end]
    ensures LexRange(slice + ";", 0, |slice|, d) == Some(Move(a, 0 - a[0].start))
  {
    hide LexRange;
    var k, b := a[0].start, a[|a| - 1].end;
    SliceAgrees(s, k, b, ";");
    RangeLocal(s, k, b, slice + ";", 0 - a[0].start, d);
  }

  lemma StretchIsClosable(s: string, a: seq<Token>, x: Piece, separator: Token, d: Dialect)
    requires a != [] && a[0].start <= a[|a| - 1].end < |s| && !d.plsqlBlocks && CanMove(a, 0 - a[0].start)
    requires LexRange(s, a[0].start, a[|a| - 1].end, d) == Some(a)
    requires IsSemicolon(separator) && Separates(a, separator, d)
    requires x == Piece(s[a[0].start..a[|a| - 1].end], Move(a, 0 - a[0].start))
    ensures Closable(x, d)
  {
    StretchBeforeSemicolon(s, a, x.slice, d);
    hide LexRange, Alike, Separates;
    MovedAlike(a, 0 - a[0].start);
    AlikeSeparates(a, x.tokens, separator, SemicolonAt(0), d);
  }

  lemma {:induction false} TokensFit(s: string, p: nat, ts: seq<Token>, d: Dialect, i: nat)
    requires p <= |s| && Partition(s, p, ts, d) && i < |ts|
    ensures TokenFits(s, ts[i], d)
    decreases |ts|
  {
    hide OnlyGaps, TokenFits;
    if i > 0 {
      TokenEndsInside(s, ts[0], d);
      TokensFit(s, ts[0].end, ts[1..], d, i - 1);
    }
  }

  lemma TokenEndsInside(s: string, t: Token, d: Dialect)
    requires TokenFits(s, t, d)
    ensures t.start < t.end <= |s|
  {
  }

  /** What is known of the `k`-th statement of a script and the token after it. */
  lemma RangeFacts(s: string, k: nat, d: Dialect)
    requires !d.plsqlBlocks && Tokenize(s, 0, d).Tokens?
    requires k < |SplitRanges(Tokenize(s, 0, d).tokens, 0, 0, d)|
    ensures var ts := Tokenize(s, 0, d).tokens;
            var ranges := SplitRanges(ts, 0, 0, d);
            var r := ranges[k];
            var a := ts[r.from..r.to];
            && a != [] && a[0].start <= |s| && a[|a| - 1].end <= |s|
            && LexRange(s, a[0].start, a[|a| - 1].end, d) == Some(a) && Unbroken(a, d)
            && (k + 1 < |ranges| ==>
                  r.to < |ts| && a[|a| - 1].end < |s| && IsSemicolon(ts[r.to]) && Separates(a, ts[r.to], d))
  {
    hide LexRange, Tokenize, Unbroken, Separates, Partition, TokenFits;
    var ts := Tokenize(s, 0, d).tokens;
    var ranges := SplitRanges(ts, 0, 0, d);
    var r := ranges[k];
    SplitIsClosed(ts, d);
    TokensAreARange(s, 0, d, r.from, r.to - 1);
    assert ts[r.from..r.to - 1 + 1] == ts[r.from..r.to];
    if k + 1 < |ranges| {
      assert r.to < ranges[k + 1].from < |ts|;
      TokensPartitionTheScript(s, 0, d);
      PartitionIsOrdered(s, 0, ts, d, r.to - 1, r.to);
      TokensFit(s, 0, ts, d, r.to);
      SeparatorIsSemicolon(s, ts[r.from..r.to], ts[r.to], d);
    }
  }

  lemma SeparatorIsSemicolon(s: string, current: seq<Token>, t: Token, d: Dialect)
    requires TokenFits(s, t, d) && Separates(current, t, d) && !d.plsqlBlocks
    ensures IsSemicolon(t) && t.start < |s|
  {
  }

  /** `x` is the `k`-th statement of the script on its own. */
  predicate IsPiece(s: string, k: nat, x: Piece, d: Dialect) {
    && Tokenize(s, 0, d).Tokens?
    && var ts := Tokenize(s, 0, d).tokens;
       k < |SplitRanges(ts, 0, 0, d)|
       && var r := SplitRanges(ts, 0, 0, d)[k];
          var a := ts[r.from..r.to];
          && a != [] && a[0].start <= a[|a| - 1].end <= |s|
          && x.slice == s[a[0].start..a[|a| - 1].end]
          && Move(x.tokens, a[0].start) == a
  }

  lemma PieceAt(s: string, k: nat, d: Dialect) returns (x: Piece)
    requires !d.plsqlBlocks && Tokenize(s, 0, d).Tokens?
    requires k < |SplitRanges(Tokenize(s, 0, d).tokens, 0, 0, d)|
    ensures Whole(x, d) && Anchored(x) && IsPiece(s, k, x, d)
    ensures k + 1 < |SplitRanges(Tokenize(s, 0, d).tokens, 0, 0, d)| ==> Closable(x, d)
  {
    hide LexRange, Tokenize, Unbroken, Separates, SplitRanges, Whole, Closable, Anchored, IsSemicolon;
    RangeFacts(s, k, d);
    var ts := Tokenize(s, 0, d).tokens;
    var ranges := SplitRanges(ts, 0, 0, d);
    var a := ts[ranges[k].from..ranges[k].to];
    x := StretchIsWhole(s, a, d);
    if k + 1 < |ranges| {
      StretchIsClosable(s, a, x, ts[ranges[k].to], d);
    }
  }

  /** `pieces` are the statements of the script from the `k`-th on. */
  predicate ArePieces(s: string, k: nat, pieces: seq<Piece>, d: Dialect) {
    && Joinable(pieces, d)
    && forall i | 0 <= i < |pieces| :: Anchored(pieces[i]) && IsPiece(s, k + i, pieces[i], d)
  }

  lemma PiecesCons(s: string, k: nat, x: Piece, rest: seq<Piece>, d: Dialect)
    requires ArePieces(s, k + 1, rest, d) && Whole(x, d) && Anchored(x) && IsPiece(s, k, x, d)
    requires rest != [] ==> Closable(x, d)
    ensures ArePieces(s, k, [x] + rest, d)
  {
    hide Whole, Closable, Anchored, IsPiece;
    var all := [x] + rest;
    assert forall i | 1 <= i < |all| :: all[i] == rest[i - 1] && k + i == k + 1 + (i - 1);
  }

  /** The statements of a script are joinable pieces. */
  lemma {:induction false} PiecesOf(s: string, k: nat, d: Dialect) returns (pieces: seq<Piece>)
    requires !d.plsqlBlocks && Tokenize(s, 0, d).Tokens?
    requires k <= |SplitRanges(Tokenize(s, 0, d).tokens, 0, 0, d)|
    ensures |pieces| == |SplitRanges(Tokenize(s, 0, d).tokens, 0, 0, d)| - k
    ensures ArePieces(s, k, pieces, d)
    decreases |SplitRanges(Tokenize(s, 0, d).tokens, 0, 0, d)| - k
  {
    hide Tokenize, SplitRanges, Whole, Closable, Anchored, IsPiece;
    if k == |SplitRanges(Tokenize(s, 0, d).tokens, 0, 0, d)| {
      pieces := [];
    } else {
      var x := PieceAt(s, k, d);
      var rest := PiecesOf(s, k + 1, d);
      PiecesCons(s, k, x, rest, d);
      pieces := [x] + rest;
    }
  }

  // ----- the statements of a piece, wherever it stands -----

  lemma {:induction false} MovedAnalysis(a: seq<Token>, o: nat, depth: nat)
    ensures Analyze(Move(a, o), depth) == Move(Analyze(a, depth), o)
  {
    if a != [] {
      MovedAnalysis(a[1..], o, DepthAfter(a[0], depth));
      assert Move(a, o)[1..] == Move(a[1..], o);
      var x := Analyze(a, depth);
      assert x[1..] == Analyze(a[1..], DepthAfter(a[0], depth));
    }
  }

  /** The statement a piece makes when its first byte stands at `o`. */
  function StatementOf(x: Piece, o: nat, d: Dialect): Statement
    requires x.tokens != []
  {
    var keyword := KeywordOf(x.tokens[0]);
    Statement(d.plsqlBlocks && IsPlsqlBlock(x.tokens) && keyword != "CREATE",
              keyword,
              keyword in d.rowKeywords || (d.returningRows && HasReturning(Analyze(x.tokens, 0))),
              Move(Analyze(x.tokens, 0), o),
              x.slice)
  }

  lemma MovedReturning(a: seq<Token>, o: nat)
    ensures HasReturning(Move(a, o)) == HasReturning(a)
  {
    var b := Move(a, o);
    if HasReturning(a) {
      var i :| 0 <= i < |a| && a[i].depth == 0 && a[i].kind == Word && a[i].upper == "RETURNING";
      assert b[i].depth == 0 && b[i].kind == Word && b[i].upper == "RETURNING";
    }
    if HasReturning(b) {
      var i :| 0 <= i < |b| && b[i].depth == 0 && b[i].kind == Word && b[i].upper == "RETURNING";
      assert a[i].depth == 0 && a[i].kind == Word && a[i].upper == "RETURNING";
    }
  }

  lemma BuildOfPiece(t: string, x: Piece, o: nat, d: Dialect)
    requires Anchored(x) && InScript(Move(x.tokens, o), t)
    requires o + |x.slice| <= |t| && t[o..o + |x.slice|] == x.slice
    ensures Build(t, Move(x.tokens, o), d) == StatementOf(x, o, d)
  {
    hide BlockWords, InScript, HasReturning;
    MovedAlike(x.tokens, o);
    AlikeWords(x.tokens, Move(x.tokens, o), 6);
    MovedAnalysis(x.tokens, o, 0);
    MovedReturning(Analyze(x.tokens, 0), o);
    hide Analyze, Alike;
  }

  /** The statements differ only in where they stand: same bytes, same flags, same tokens moved by one offset. */
  predicate SameStatement(x: Statement, y: Statement) {
    && x.slice == y.slice && x.keyword == y.keyword && x.isBlock == y.isBlock && x.returnsRows == y.returnsRows
    && |x.tokens| == |y.tokens| > 0
    && forall i | 0 <= i < |x.tokens| ::
         && y.tokens[i].kind == x.tokens[i].kind && y.tokens[i].depth == x.tokens[i].depth
         && y.tokens[i].text == x.tokens[i].text && y.tokens[i].upper == x.tokens[i].upper
         && y.tokens[i].start - y.tokens[0].start == x.tokens[i].start - x.tokens[0].start
         && y.tokens[i].end - y.tokens[0].start == x.tokens[i].end - x.tokens[0].start
  }

  lemma SamePiece(x: Piece, o: nat, p: nat, d: Dialect)
    requires x.tokens != []
    ensures SameStatement(StatementOf(x, o, d), StatementOf(x, p, d))
  {
    hide BlockWords, HasReturning;
  }

  // ----- the joined script -----

  function JoinStatements(statements: seq<Statement>): string {
    if statements == [] then ""
    else if |statements| == 1 then statements[0].slice
    else statements[0].slice + ";\n" + JoinStatements(statements[1..])
  }

  lemma {:induction false} JoinIsJoinPieces(statements: seq<Statement>, pieces: seq<Piece>)
    requires |statements| == |pieces| && forall i | 0 <= i < |pieces| :: statements[i].slice == pieces[i].slice
    ensures JoinStatements(statements) == JoinPieces(pieces)
  {
    if |pieces| > 1 {
      JoinIsJoinPieces(statements[1..], pieces[1..]);
    }
  }

  /** Where the `k`-th piece stands in the joined script, and its tokens among the joined tokens. */
  lemma {:induction false} JoinedPieceAt(pieces: seq<Piece>, t: string, p: nat, all: seq<Token>, q: nat, k: nat)
    returns (o: nat)
    requires p <= |t| && t[p..] == JoinPieces(pieces)
    requires q <= |all| && all[q..] == JoinedTokens(pieces, p)
    requires k < |pieces|
    ensures o + |pieces[k].slice| <= |t| && t[o..o + |pieces[k].slice|] == pieces[k].slice
    ensures var r := JoinedRanges(pieces, q)[k];
            r.from <= r.to <= |all| && all[r.from..r.to] == Move(pieces[k].tokens, o)
    decreases |pieces|
  {
    hide Move, JoinedTokens;
    JoinedTokenParts(pieces, p, all, q);
    if |pieces| > 1 {
      hide JoinPieces;
      JoinedParts(pieces, t, p);
      if k > 0 {
        o := JoinedPieceAt(pieces[1..], t, p + |pieces[0].slice| + 2, all, q + |pieces[0].tokens| + 1, k - 1);
      } else {
        o := p;
      }
    } else {
      o := p;
      assert t[p..p + |t[p..]|] == t[p..];
    }
  }

  lemma SplitOfTokens(s: string, d: Dialect)
    requires Tokenize(s, 0, d).Tokens?
    ensures InScript(Tokenize(s, 0, d).tokens, s)
    ensures StatementsOf(s, d)
            == Ok(BuildAll(s, Tokenize(s, 0, d).tokens, SplitRanges(Tokenize(s, 0, d).tokens, 0, 0, d), d))
  {
    hide Tokenize;
    TokensAreInScript(s, d);
  }

  /** The `k`-th statement of the script is its piece where the script has it. */
  lemma OriginalStatement(s: string, k: nat, x: Piece, d: Dialect) returns (o: nat)
    requires IsPiece(s, k, x, d) && Anchored(x)
    ensures StatementsOf(s, d).Ok? && k < |StatementsOf(s, d).value|
            && StatementsOf(s, d).value[k] == StatementOf(x, o, d)
  {
    hide Tokenize, SplitRanges, Build, StatementOf, StatementsOf;
    SplitOfTokens(s, d);
    var ts := Tokenize(s, 0, d).tokens;
    var r := SplitRanges(ts, 0, 0, d)[k];
    var a := ts[r.from..r.to];
    o := a[0].start;
    assert |x.slice| == a[|a| - 1].end - o;
    BuildOfPiece(s, x, o, d);
  }

  /** The `k`-th statement of the joined script is the same piece where the joined script has it. */
  lemma JoinedStatement(pieces: seq<Piece>, t: string, k: nat, d: Dialect) returns (o: nat)
    requires !d.plsqlBlocks && Joinable(pieces, d) && t == JoinPieces(pieces) && k < |pieces| && Anchored(pieces[k])
    ensures StatementsOf(t, d).Ok? && |StatementsOf(t, d).value| == |pieces|
            && StatementsOf(t, d).value[k] == StatementOf(pieces[k], o, d)
  {
    hide Tokenize, SplitRanges, Build, StatementOf, StatementsOf, Joinable, JoinPieces, JoinedTokens, Move;
    assert t[0..] == t;
    JoinedTokenize(pieces, t, 0, d);
    SplitOfTokens(t, d);
    var all := Tokenize(t, 0, d).tokens;
    assert all[0..] == all;
    JoinedSplit(pieces, 0, all, 0, d);
    o := JoinedPieceAt(pieces, t, 0, all, 0, k);
    var r := JoinedRanges(pieces, 0)[k];
    BuildOfPiece(t, pieces[k], o, d);
  }

  /** Without slash lines and `q'` literals every script can be tokenized. */
  lemma NeverStuck(s: string, d: Dialect)
    requires !d.plsqlBlocks
    ensures Tokenize(s, 0, d).Tokens?
  {
    hide Tokenize;
    if Tokenize(s, 0, d).StuckAt? {
      StuckAtTheEnd(s, 0, d);
    }
  }

  /** Joining the statements of a Postgres, SQLite or MySQL script with `;` and a newline, and splitting again,
      gives the same statements with the same tokens. */
  lemma SplitJoinRoundTrip(s: string, d: Dialect)
    requires !d.plsqlBlocks
    ensures StatementsOf(s, d).Ok?
    ensures var once := StatementsOf(s, d).value;
            var again := StatementsOf(JoinStatements(once), d);
            && again.Ok? && |again.value| == |once|
            && forall k | 0 <= k < |once| :: SameStatement(once[k], again.value[k])
  {
    hide Tokenize, SplitRanges, StatementsOf, Joinable, JoinPieces, StatementOf, SameStatement, Anchored, IsPiece,
         BuildAll;
    NeverStuck(s, d);
    SplitOfTokens(s, d);
    var once := StatementsOf(s, d).value;
    var pieces := PiecesOf(s, 0, d);
    forall k | 0 <= k < |pieces|
      ensures once[k].slice == pieces[k].slice
    {
      assert IsPiece(s, 0 + k, pieces[k], d);
      AnchoredHasTokens(pieces[k]);
      var o := OriginalStatement(s, k, pieces[k], d);
      SliceOfStatement(pieces[k], o, d);
    }
    JoinIsJoinPieces(once, pieces);
    var t := JoinPieces(pieces);
    if pieces == [] {
      NoPieces(t, d);
    }
    forall k | 0 <= k < |pieces|
      ensures StatementsOf(t, d).Ok? && |StatementsOf(t, d).value| == |pieces|
              && SameStatement(once[k], StatementsOf(t, d).value[k])
    {
      assert IsPiece(s, 0 + k, pieces[k], d);
      AnchoredHasTokens(pieces[k]);
      var o := OriginalStatement(s, k, pieces[k], d);
      var p := JoinedStatement(pieces, t, k, d);
      SamePiece(pieces[k], o, p, d);
    }
    assert pieces != [] ==> StatementsOf(t, d).Ok? && |StatementsOf(t, d).value| == |pieces| by {
      if pieces != [] {
        assert IsPiece(s, 0 + 0, pieces[0], d);
        var p := JoinedStatement(pieces, t, 0, d);
      }
    }
  }

  lemma AnchoredHasTokens(x: Piece)
    requires Anchored(x)
    ensures x.tokens != []
  {
  }

  lemma SliceOfStatement(x: Piece, o: nat, d: Dialect)
    requires x.tokens != []
    ensures StatementOf(x, o, d).slice == x.slice
  {
    hide Analyze;
  }

  lemma NoPieces(t: string, d: Dialect)
    requires t == JoinPieces([])
    ensures StatementsOf(t, d) == Ok([])
  {
    assert Tokenize(t, 0, d) == Tokens([]);
  }

  /** So the joined text is a normal form: joining what it splits into gives it back. */
  lemma JoinedTextIsNormalForm(s: string, d: Dialect)
    requires !d.plsqlBlocks
    ensures StatementsOf(s, d).Ok?
    ensures var text := JoinStatements(StatementsOf(s, d).value);
            StatementsOf(text, d).Ok? && JoinStatements(StatementsOf(text, d).value) == text
  {
    hide StatementsOf;
    SplitJoinRoundTrip(s, d);
    var once := StatementsOf(s, d).value;
    SameSlicesSameText(once, StatementsOf(JoinStatements(once), d).value);
  }

  lemma {:induction false} SameSlicesSameText(x: seq<Statement>, y: seq<Statement>)
    requires |x| == |y| && forall k | 0 <= k < |x| :: SameStatement(x[k], y[k])
    ensures JoinStatements(x) == JoinStatements(y)
  {
    if |x| > 1 {
      SameSlicesSameText(x[1..], y[1..]);
    }
  }
}
