/** Which SELECTs read a single table, told by the words and names behind FROM. */
module SqlSingleTable {
  import opened TextLines
  import opened SqlLexer
  import opened SqlStatements

  // ----- the tokens outside parentheses -----

  /** The top level has the tokens at depth zero, each as often, in the order of the statement. */
  lemma {:induction false} TopLevelExactly(a: seq<Token>, b: seq<Token>, t: Token)
    ensures TopLevel(a + b) == TopLevel(a) + TopLevel(b)
    ensures multiset(TopLevel(b))[t] == if t.depth == 0 then multiset(b)[t] else 0
  {
    if b == [] {
      assert a + b == a;
    } else {
      var before, last := b[..|b| - 1], b[|b| - 1];
      assert (a + b)[..|a + b| - 1] == a + before && (a + b)[|a + b| - 1] == last && b == before + [last];
      TopLevelExactly(a, before, t);
    }
  }

  // ----- what stands behind FROM -----

  /** A word that brings in another table or changes what a row is. */
  predicate IsBreakerWord(t: Token) {
    t.kind == Word
    && t.upper in {"JOIN", "UNION", "INTERSECT", "EXCEPT", "MINUS", "GROUP", "HAVING", "DISTINCT", "CONNECT", "PIVOT",
                   "UNPIVOT", "MODEL", "WINDOW", "NATURAL", "CROSS"}
  }

  /** A word that may follow the table. */
  predicate IsClause(upper: string) {
    upper in {"WHERE", "ORDER", "LIMIT", "FETCH", "OFFSET", "FOR"}
  }

  predicate IsNameToken(t: Token) {
    t.kind == Word || t.kind == Quoted
  }

  /** The first FROM is at `f`, a name follows it, and no word forbids a single table. */
  predicate SelectsFrom(top: seq<Token>, f: nat) {
    && f + 1 < |top| && top[0].upper == "SELECT"
    && top[f].kind == Word && top[f].upper == "FROM" && IsNameToken(top[f + 1])
    && (forall k | 0 <= k < f :: !(top[k].kind == Word && top[k].upper == "FROM"))
    && (forall k | 0 <= k < |top| :: !IsBreakerWord(top[k]))
  }

  /** Behind the name at `f + 1` stand a dot and another name. */
  predicate HasSchema(top: seq<Token>, f: nat) {
    f + 3 < |top| && top[f + 2].text == "." && IsNameToken(top[f + 3])
  }

  /** The table has one name, or two with the schema first. */
  predicate Names(top: seq<Token>, f: nat, r: TableReference)
    requires f + 1 < |top|
  {
    if HasSchema(top, f) then
      && r.schema == top[f + 1].text && r.schemaQuoted == (top[f + 1].kind == Quoted)
      && r.name == top[f + 3].text && r.nameQuoted == (top[f + 3].kind == Quoted)
    else
      r.schema == "" && !r.schemaQuoted && r.name == top[f + 1].text && r.nameQuoted == (top[f + 1].kind == Quoted)
  }

  /** From `p` on stand an AS or none, an alias or none, and then a clause or nothing. */
  predicate OnlyAliased(top: seq<Token>, p: nat, asWord: bool, alias: bool) {
    var a := if asWord then p + 1 else p;
    var b := if alias then a + 1 else a;
    && b <= |top|
    && (asWord ==> top[p].kind == Word && top[p].upper == "AS")
    && (alias ==> IsNameToken(top[a]) && !IsClause(top[a].upper))
    && (b < |top| ==> top[b].kind == Word && IsClause(top[b].upper))
  }

  predicate EndsAfter(top: seq<Token>, p: nat) {
    exists asWord, alias :: OnlyAliased(top, p, asWord, alias)
  }

  predicate ReadsAt(top: seq<Token>, f: nat, r: TableReference) {
    SelectsFrom(top, f) && Names(top, f, r) && EndsAfter(top, if HasSchema(top, f) then f + 4 else f + 2)
  }

  /** The statement reads the one table `r`: it is all that stands between FROM and the clauses, alias aside. */
  ghost predicate ReadsOnly(top: seq<Token>, r: TableReference) {
    exists f: nat :: ReadsAt(top, f, r)
  }

  lemma AliasSkipped(top: seq<Token>, p: nat)
    requires p <= |top|
    ensures var q := SkipAlias(top, SkipAs(top, p));
            q == |top| || (top[q].kind == Word && IsFollowerWord(top[q].upper))
            <==> EndsAfter(top, p)
  {
    var a := SkipAs(top, p);
    var q := SkipAlias(top, a);
    if q == |top| || (top[q].kind == Word && IsFollowerWord(top[q].upper)) {
      assert OnlyAliased(top, p, a == p + 1, q == a + 1);
    }
  }

  lemma FirstFrom(top: seq<Token>, f: nat)
    requires SelectsFrom(top, f)
    ensures FromIndex(top) == f
  {
  }

  lemma BreakersAgree(top: seq<Token>)
    ensures (exists i :: 0 <= i < |top| && IsBreaker(top[i])) <==> exists i :: 0 <= i < |top| && IsBreakerWord(top[i])
  {
    if i :| 0 <= i < |top| && IsBreaker(top[i]) {
      assert IsBreakerWord(top[i]);
    }
    if i :| 0 <= i < |top| && IsBreakerWord(top[i]) {
      assert IsBreaker(top[i]);
    }
  }

  lemma TableNamed(top: seq<Token>, f: nat, r: TableReference)
    requires f + 1 < |top|
    ensures Names(top, f, r) <==> r == TableAt(top, f + 1).0
    ensures TableAt(top, f + 1).1 == if HasSchema(top, f) then f + 4 else f + 2
  {
  }

  /** A table is returned exactly when the statement reads it and nothing else. */
  lemma SingleExactly(top: seq<Token>, r: TableReference)
    ensures TableOfTop(top) == Some(r) <==> ReadsOnly(top, r)
  {
    BreakersAgree(top);
    hide IsBreaker, IsBreakerWord, EndsAfter, Names, TableAt, SkipAs, SkipAlias, IsFollowerWord, HasSchema;
    var f := FromIndex(top);
    if f + 1 < |top| {
      TableNamed(top, f, r);
      AliasSkipped(top, TableAt(top, f + 1).1);
    }
    if TableOfTop(top) == Some(r) {
      assert ReadsAt(top, f, r);
    }
    if ReadsOnly(top, r) {
      var g: nat :| ReadsAt(top, g, r);
      FirstFrom(top, g);
    }
  }

  /** Two tables, and a comma between them, are never single. */
  lemma ListedTablesAreNotSingle(top: seq<Token>, f: nat)
    requires SelectsFrom(top, f) && f + 2 < |top| && top[f + 2].kind == Symbol && top[f + 2].text == ","
    ensures TableOfTop(top) == None
  {
    FirstFrom(top, f);
  }

  /** A quoted dot as an alias is taken for the dot between schema and table. */
  lemma QuotedDotExample()
    ensures var w := (text: string) => Token(Word, 0, 1, 0, text, text);
            var top := [w("SELECT"), w("X"), w("FROM"), w("T"), Token(Quoted, 0, 1, 0, ".", "."), w("WHERE")];
            TableOfTop(top) == Some(TableReference("WHERE", "T", false, false))
  {
    var w := (text: string) => Token(Word, 0, 1, 0, text, text);
    var top := [w("SELECT"), w("X"), w("FROM"), w("T"), Token(Quoted, 0, 1, 0, ".", "."), w("WHERE")];
    assert HasSchema(top, 2);
    assert SelectsFrom(top, 2);
    assert Names(top, 2, TableReference("WHERE", "T", false, false));
    assert OnlyAliased(top, 6, false, false);
    hide SelectsFrom, Names, OnlyAliased, TableOfTop, HasSchema;
    assert ReadsAt(top, 2, TableReference("WHERE", "T", false, false));
    SingleExactly(top, TableReference("WHERE", "T", false, false));
  }
}
