/** Splitting loses and invents no token: statements are runs of tokens, what lies between them are
    separators, and a semicolon stays inside a statement only when that is a recognised block. */
module SqlConservation {
  import opened TextLines
  import opened SqlLexer
  import opened SqlLocality
  import opened SqlStatements

  // ----- recognised blocks stay recognised -----

  lemma {:induction false} MoreLeadingWords(tokens: seq<Token>, more: seq<Token>, count: nat)
    ensures LeadingWords(tokens, count) <= LeadingWords(tokens + more, count)
  {
    if count > 0 && tokens != [] {
      assert (tokens + more)[1..] == tokens[1..] + more;
      MoreLeadingWords(tokens[1..], more, count - 1);
    }
  }

  lemma {:induction false} MoreWordsStillCreate(words: seq<string>, more: seq<string>)
    requires words <= more && CreatesBlock(words)
    ensures CreatesBlock(more)
  {
    if words[0] in BLOCK_MODIFIERS {
      MoreWordsStillCreate(words[1..], more[1..]);
    }
  }

  /** A statement whose beginning is a block is a block. */
  lemma BlocksStayBlocks(tokens: seq<Token>, more: seq<Token>)
    ensures IsPlsqlBlock(tokens) ==> IsPlsqlBlock(tokens + more)
    ensures IsTriggerBlock(tokens) ==> IsTriggerBlock(tokens + more)
  {
    MoreLeadingWords(tokens, more, 6);
    MoreLeadingWords(tokens, more, 3);
    var words, all := LeadingWords(tokens, 6), LeadingWords(tokens + more, 6);
    if IsPlsqlBlock(tokens) && words[0] == "CREATE" {
      MoreWordsStillCreate(words[1..], all[1..]);
    }
  }

  predicate InBlock(tokens: seq<Token>, d: Dialect) {
    (d.plsqlBlocks && IsPlsqlBlock(tokens)) || (d.triggerBlocks && IsTriggerBlock(tokens))
  }

  // ----- conservation -----

  predicate MaySeparate(t: Token) {
    t.kind == SlashLine || IsSemicolon(t)
  }

  /** No slash line, and semicolons only in a block. */
  predicate WellKept(statement: seq<Token>, d: Dialect) {
    forall k | 0 <= k < |statement| ::
      statement[k].kind != SlashLine && (IsSemicolon(statement[k]) ==> InBlock(statement, d))
  }

  predicate OnlySeparators(tokens: seq<Token>, i: nat, j: nat)
    requires i <= j <= |tokens|
  {
    forall k | i <= k < j :: MaySeparate(tokens[k])
  }

  /** From token `i` on, the ranges cover every token but separators, in order, each range non-empty, well kept
      and followed by a separator or the end. */
  predicate Conserves(tokens: seq<Token>, i: nat, ranges: seq<Range>, d: Dialect)
    requires i <= |tokens|
    decreases |ranges|
  {
    if ranges == [] then OnlySeparators(tokens, i, |tokens|)
    else
      var r := ranges[0];
      && i <= r.from < r.to <= |tokens|
      && OnlySeparators(tokens, i, r.from)
      && WellKept(tokens[r.from..r.to], d)
      && (r.to < |tokens| ==> MaySeparate(tokens[r.to]))
      && Conserves(tokens, r.to, ranges[1..], d)
  }

  lemma SeparatorMoves(tokens: seq<Token>, i: nat, ranges: seq<Range>, d: Dialect)
    requires i < |tokens| && MaySeparate(tokens[i]) && Conserves(tokens, i + 1, ranges, d)
    ensures Conserves(tokens, i, ranges, d)
  {
    hide WellKept;
  }

  lemma KeptGrows(statement: seq<Token>, t: Token, d: Dialect)
    requires WellKept(statement, d) && !Separates(statement, t, d)
    ensures WellKept(statement + [t], d)
  {
    hide IsPlsqlBlock, IsTriggerBlock, Nesting;
    BlocksStayBlocks(statement, [t]);
    var all := statement + [t];
    forall k | 0 <= k < |all|
      ensures all[k].kind != SlashLine && (IsSemicolon(all[k]) ==> InBlock(all, d))
    {
      if k < |statement| {
        assert all[k] == statement[k];
      }
    }
  }

  lemma ConservesFlush(tokens: seq<Token>, start: nat, i: nat, rest: seq<Range>, d: Dialect)
    requires start <= i < |tokens| && WellKept(tokens[start..i], d) && MaySeparate(tokens[i])
    requires Conserves(tokens, i + 1, rest, d)
    ensures Conserves(tokens, start, Flushed(start, i) + rest, d)
  {
    hide WellKept, MaySeparate;
    SeparatorMoves(tokens, i, rest, d);
    if start < i {
      assert ([Range(start, i)] + rest)[1..] == rest;
    } else {
      assert [] + rest == rest;
    }
  }

  lemma ConservesEnd(tokens: seq<Token>, start: nat, d: Dialect)
    requires start <= |tokens| && WellKept(tokens[start..|tokens|], d)
    ensures Conserves(tokens, start, Flushed(start, |tokens|), d)
  {
    hide WellKept;
    if start < |tokens| {
      assert Flushed(start, |tokens|)[1..] == [];
      assert Conserves(tokens, |tokens|, [], d);
    }
  }

  lemma {:induction false} SplitConservesFrom(tokens: seq<Token>, start: nat, i: nat, d: Dialect)
    requires start <= i <= |tokens| && WellKept(tokens[start..i], d)
    ensures Conserves(tokens, start, SplitRanges(tokens, start, i, d), d)
    decreases |tokens| - i
  {
    hide WellKept, Separates, MaySeparate, Conserves, Flushed;
    if i == |tokens| {
      ConservesEnd(tokens, start, d);
    } else if Separates(tokens[start..i], tokens[i], d) {
      SeparatesOnlySeparators(tokens[start..i], tokens[i], d);
      EmptyIsKept(d);
      assert tokens[i + 1..i + 1] == [];
      SplitConservesFrom(tokens, i + 1, i + 1, d);
      ConservesFlush(tokens, start, i, SplitRanges(tokens, i + 1, i + 1, d), d);
    } else {
      KeptGrows(tokens[start..i], tokens[i], d);
      assert tokens[start..i + 1] == tokens[start..i] + [tokens[i]];
      SplitConservesFrom(tokens, start, i + 1, d);
    }
  }

  lemma SeparatesOnlySeparators(current: seq<Token>, t: Token, d: Dialect)
    requires Separates(current, t, d)
    ensures MaySeparate(t)
  {
  }

  lemma EmptyIsKept(d: Dialect)
    ensures WellKept([], d)
  {
  }

  /** Splitting a script conserves its tokens. */
  lemma SplitConserves(tokens: seq<Token>, d: Dialect)
    ensures Conserves(tokens, 0, SplitRanges(tokens, 0, 0, d), d)
  {
    EmptyIsKept(d);
    assert tokens[0..0] == [];
    SplitConservesFrom(tokens, 0, 0, d);
  }

  // ----- each statement is one run, closed by its separator -----

  /** No token of the statement separates it from what came before in it. */
  predicate Unbroken(statement: seq<Token>, d: Dialect) {
    forall k | 0 <= k < |statement| :: !Separates(statement[..k], statement[k], d)
  }

  /** From token `i` on, every range is an unbroken statement that ends where a token separates it. */
  predicate Closed(tokens: seq<Token>, ranges: seq<Range>, d: Dialect) {
    forall k | 0 <= k < |ranges| ::
      && ranges[k].from < ranges[k].to <= |tokens|
      && Unbroken(tokens[ranges[k].from..ranges[k].to], d)
      && (ranges[k].to < |tokens| ==>
            Separates(tokens[ranges[k].from..ranges[k].to], tokens[ranges[k].to], d))
      && (k + 1 < |ranges| ==> ranges[k].to < ranges[k + 1].from)
  }

  lemma UnbrokenGrows(tokens: seq<Token>, start: nat, i: nat, d: Dialect)
    requires start <= i < |tokens| && Unbroken(tokens[start..i], d) && !Separates(tokens[start..i], tokens[i], d)
    ensures Unbroken(tokens[start..i + 1], d)
  {
    hide Separates;
    var now, next := tokens[start..i], tokens[start..i + 1];
    forall k | 0 <= k < |next|
      ensures !Separates(next[..k], next[k], d)
    {
      if k < |now| {
        assert next[..k] == now[..k] && next[k] == now[k];
      } else {
        assert next[..k] == now;
      }
    }
  }

  lemma ClosedCons(tokens: seq<Token>, start: nat, i: nat, rest: seq<Range>, d: Dialect)
    requires start <= i < |tokens| && Unbroken(tokens[start..i], d) && Separates(tokens[start..i], tokens[i], d)
    requires Closed(tokens, rest, d) && (rest != [] ==> i + 1 <= rest[0].from)
    ensures Closed(tokens, Flushed(start, i) + rest, d)
  {
    hide Separates, Unbroken;
    var all := Flushed(start, i) + rest;
    if start < i {
      assert all[0] == Range(start, i);
      assert forall k | 1 <= k < |all| :: all[k] == rest[k - 1];
    } else {
      assert all == rest;
    }
  }

  lemma {:induction false} SplitIsClosedFrom(tokens: seq<Token>, start: nat, i: nat, d: Dialect)
    requires start <= i <= |tokens| && Unbroken(tokens[start..i], d)
    ensures Closed(tokens, SplitRanges(tokens, start, i, d), d)
    decreases |tokens| - i
  {
    hide Separates, Unbroken, Closed;
    if i == |tokens| {
      ClosedAtEnd(tokens, start, d);
    } else if Separates(tokens[start..i], tokens[i], d) {
      assert tokens[i + 1..i + 1] == [];
      EmptyIsUnbroken(d);
      SplitIsClosedFrom(tokens, i + 1, i + 1, d);
      ClosedCons(tokens, start, i, SplitRanges(tokens, i + 1, i + 1, d), d);
    } else {
      UnbrokenGrows(tokens, start, i, d);
      SplitIsClosedFrom(tokens, start, i + 1, d);
    }
  }

  lemma EmptyIsUnbroken(d: Dialect)
    ensures Unbroken([], d)
  {
  }

  lemma ClosedAtEnd(tokens: seq<Token>, start: nat, d: Dialect)
    requires start <= |tokens| && Unbroken(tokens[start..|tokens|], d)
    ensures Closed(tokens, Flushed(start, |tokens|), d)
  {
  }

  lemma SplitIsClosed(tokens: seq<Token>, d: Dialect)
    ensures Closed(tokens, SplitRanges(tokens, 0, 0, d), d)
  {
    assert tokens[0..0] == [];
    SplitIsClosedFrom(tokens, 0, 0, d);
  }

  /** Reading an unbroken statement keeps it whole. */
  lemma {:induction false} ReadUnbroken(tokens: seq<Token>, start: nat, i: nat, end: nat, d: Dialect)
    requires start <= i <= end <= |tokens| && Unbroken(tokens[start..end], d)
    ensures SplitRanges(tokens, start, i, d) == SplitRanges(tokens, start, end, d)
    decreases end - i
  {
    hide Separates;
    if i < end {
      var statement := tokens[start..end];
      assert statement[..i - start] == tokens[start..i] && statement[i - start] == tokens[i];
      ReadUnbroken(tokens, start, i + 1, end, d);
    }
  }

  // ----- parenthesis depth -----

  /** The positions of the parentheses opened and not yet closed after the tokens, outermost first. */
  function OpenParens(tokens: seq<Token>): seq<nat> {
    if tokens == [] then []
    else
      var before := OpenParens(tokens[..|tokens| - 1]);
      var last := tokens[|tokens| - 1];
      if last.kind == Symbol && last.text == "(" then before + [|tokens| - 1]
      else if last.kind == Symbol && last.text == ")" && before != [] then before[..|before| - 1]
      else before
  }

  function RunDepth(tokens: seq<Token>, depth: nat): nat {
    if tokens == [] then depth else RunDepth(tokens[1..], DepthAfter(tokens[0], depth))
  }

  lemma {:induction false} RunDepthSplits(a: seq<Token>, t: Token, depth: nat)
    ensures RunDepth(a + [t], depth) == DepthAfter(t, RunDepth(a, depth))
  {
    if a == [] {
      assert (a + [t])[1..] == [];
    } else {
      assert (a + [t])[1..] == a[1..] + [t];
      RunDepthSplits(a[1..], t, DepthAfter(a[0], depth));
    }
  }

  lemma {:induction false} RunDepthCountsOpen(tokens: seq<Token>)
    ensures RunDepth(tokens, 0) == |OpenParens(tokens)|
  {
    if tokens != [] {
      var before, last := tokens[..|tokens| - 1], tokens[|tokens| - 1];
      assert tokens == before + [last];
      RunDepthCountsOpen(before);
      RunDepthSplits(before, last, 0);
    }
  }

  lemma {:induction false} AnalyzedDepth(tokens: seq<Token>, depth: nat, i: nat)
    requires i < |tokens|
    ensures Analyze(tokens, depth)[i].depth == DepthOf(tokens[i], RunDepth(tokens[..i], depth))
  {
    if i > 0 {
      assert tokens[..i][1..] == tokens[1..][..i - 1];
      AnalyzedDepth(tokens[1..], DepthAfter(tokens[0], depth), i - 1);
    }
  }

  /** A token's depth is the number of parentheses that enclose it; a closing one stands outside its own pair. */
  lemma DepthIsEnclosingParens(tokens: seq<Token>, i: nat)
    requires i < |tokens|
    ensures var enclosing := |OpenParens(tokens[..i])|;
            Analyze(tokens, 0)[i].depth
            == if tokens[i].kind == Symbol && tokens[i].text == ")" && enclosing > 0 then enclosing - 1 else enclosing
  {
    AnalyzedDepth(tokens, 0, i);
    RunDepthCountsOpen(tokens[..i]);
  }
}
