/** In what the four dialects differ. */
module SqlDialects {
  import opened TextLines
  import opened SqlLexer
  import opened SqlPartition
  import opened SqlStatements
  import opened SqlBlocks

  predicate IsDialect(d: Dialect) {
    d == POSTGRES || d == ORACLE || d == SQLITE || d == MYSQL
  }

  lemma DialectsAreDistinct()
    ensures POSTGRES != ORACLE && POSTGRES != SQLITE && POSTGRES != MYSQL
    ensures ORACLE != SQLITE && ORACLE != MYSQL && SQLITE != MYSQL
  {
  }

  /**
   * A number sign starts a comment in MySQL alone, back quotes and brackets quote names in SQLite and MySQL, and `q'`
   * starts a literal in Oracle alone.
   */
  lemma LexemesByDialect(s: string, p: nat, d: Dialect)
    requires p < |s| && IsDialect(d) && !Lex(s, p, d).Stuck?
    ensures s[p] == '#' ==> (Lex(s, p, d).Gap? <==> d == MYSQL)
    ensures s[p] == '`' || s[p] == '[' ==>
              Lex(s, p, d).Lexed? && (Lex(s, p, d).token.kind == Quoted <==> d == SQLITE || d == MYSQL)
    ensures (s[p] == 'q' || s[p] == 'Q') && p + 1 < |s| && s[p + 1] == '\'' ==>
              Lex(s, p, d).Lexed? && (Lex(s, p, d).token.kind == StringLiteral <==> d == ORACLE)
  {
    DialectsAreDistinct();
    hide Undouble, Upper, IsSlashLine, Inner, QuoteEnd, BracketEnd, LineEnd, BlockEnd, TerminatorEnd, WordEnd;
  }

  /** A slash alone on its line ends a statement in Oracle, and elsewhere it is a symbol. */
  lemma SlashesByDialect(s: string, p: nat, d: Dialect)
    requires p < |s| && IsDialect(d) && s[p] == '/' && SlashAlone(s, p)
    ensures Lex(s, p, d).Lexed? && Lex(s, p, d).token.kind == if d == ORACLE then SlashLine else Symbol
  {
    DialectsAreDistinct();
    SlashLineExactly(s, p);
    assert !ByteAt(s, p + 1, '*');
    hide IsSlashLine, SlashAlone, Undouble, Upper, Inner, QuoteEnd, BracketEnd, LineEnd, BlockEnd, TerminatorEnd,
         WordEnd;
  }

  /** Semicolons stay inside triggers in SQLite and MySQL, and inside PL/SQL blocks in Oracle. */
  lemma BlocksByDialect(current: seq<Token>, t: Token, d: Dialect)
    requires IsDialect(d) && t.kind == Symbol && t.text == ";"
    ensures d == POSTGRES ==> EndsStatement(current, t, d)
    ensures d == ORACLE ==> (EndsStatement(current, t, d) <==> !PlsqlHead(current))
    ensures d == SQLITE || d == MYSQL ==>
              (EndsStatement(current, t, d) <==>
                 (TriggerHead(current) > 0 ==>
                    HasBegin(current, TriggerHead(current)) && OpenBlocks(current, TriggerHead(current)) == []))
  {
    DialectsAreDistinct();
    hide PlsqlHead, TriggerHead, HasBegin, OpenBlocks;
  }

  /** The first words of statements that return rows. */
  predicate WordReturnsRows(word: string, d: Dialect) {
    word == "SELECT" || word == "WITH"
    || (word == "VALUES" && d != ORACLE) || (word == "EXPLAIN" && d != ORACLE)
    || ((word == "SHOW" || word == "TABLE") && d == POSTGRES) || (word == "PRAGMA" && d == SQLITE)
    || ((word == "SHOW" || word == "DESC" || word == "DESCRIBE") && d == MYSQL)
  }

  /** Which statements return rows: by their first word, and in PostgreSQL and SQLite by a RETURNING. */
  lemma RowsByDialect(script: string, tokens: seq<Token>, d: Dialect)
    requires IsDialect(d) && tokens != [] && InScript(tokens, script)
    ensures Build(script, tokens, d).returnsRows
            <==> (tokens[0].kind == Word && WordReturnsRows(tokens[0].upper, d))
                 || ((d == POSTGRES || d == SQLITE) && exists i: nat :: ReturningAt(tokens, i))
  {
    DialectsAreDistinct();
    StatementFlags(script, tokens, d);
    hide Build, ReturningAt, InScript;
  }
}
