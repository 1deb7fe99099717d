/** The texts of the statements that save edited rows, as the database reads them. */
module TableTexts {
  import opened TextLines
  import opened SqlLexer
  import opened SqlPartition
  import opened SqlTexts
  import opened SqlQuoting
  import opened SqlStrings
  import opened TableEdits
  import S = SqlStatements

  // ----- names -----

  /** A name as it is written: a word as it stands, or a quoted name. */
  predicate IsName(f: Frag, d: Dialect) {
    (f.Plain? || f.Named?) && ValidFrag(f, d)
  }

  /** The table and its columns are written with these names. */
  predicate Written(meta: Meta, schema: Frag, table: Frag, names: map<Column, Frag>, d: Dialect) {
    && IsName(schema, d) && IsName(table, d)
    && meta.qualifiedName == FragText(schema) + "." + FragText(table)
    && names.Keys == meta.columns.Keys
    && forall c | c in names :: IsName(names[c], d) && meta.columns[c] == FragText(names[c])
  }

  // ----- the pieces of a statement -----

  /** `$1`, `:1` or `?`. */
  function HoleFrags(placeholder: Placeholder, n: nat): seq<Frag> {
    match placeholder
    case Dollar => [Sign('$'), Digits(n)]
    case Colon => [Sign(':'), Digits(n)]
    case Question => [Sign('?')]
  }

  const AND: seq<Frag> := [Blank, Plain("AND"), Blank]
  const COMMA: seq<Frag> := [Sign(','), Blank]

  function EquationOf(name: Frag, n: nat, placeholder: Placeholder): seq<Frag> {
    [name, Blank, Sign('='), Blank] + HoleFrags(placeholder, n)
  }

  /** `name = hole` for every name, with the joiner between any two; the holes are numbered from `first + 1`. */
  function EquationFrags(names: seq<Frag>, first: nat, joiner: seq<Frag>, placeholder: Placeholder): seq<Frag> {
    if names == [] then []
    else
      var n := |names| - 1;
      EquationFrags(names[..n], first, joiner, placeholder) + (if n == 0 then [] else joiner)
      + EquationOf(names[n], first + n + 1, placeholder)
  }

  function NameFrags(names: seq<Frag>): seq<Frag> {
    if names == [] then []
    else NameFrags(names[..|names| - 1]) + (if |names| == 1 then [] else COMMA) + [names[|names| - 1]]
  }

  function HoleListFrags(n: nat, placeholder: Placeholder): seq<Frag> {
    if n == 0 then []
    else HoleListFrags(n - 1, placeholder) + (if n == 1 then [] else COMMA) + HoleFrags(placeholder, n)
  }

  function TableFrags(schema: Frag, table: Frag): seq<Frag> {
    [schema, Sign('.'), table]
  }

  function DeleteFrags(schema: Frag, table: Frag, keys: seq<Frag>, placeholder: Placeholder): seq<Frag> {
    [Plain("DELETE"), Blank, Plain("FROM"), Blank] + TableFrags(schema, table) + [Blank, Plain("WHERE"), Blank]
    + EquationFrags(keys, 0, AND, placeholder)
  }

  function UpdateFrags(schema: Frag, table: Frag, names: seq<Frag>, keys: seq<Frag>,
                       placeholder: Placeholder): seq<Frag> {
    [Plain("UPDATE"), Blank] + TableFrags(schema, table) + [Blank, Plain("SET"), Blank]
    + EquationFrags(names, 0, COMMA, placeholder) + [Blank, Plain("WHERE"), Blank]
    + EquationFrags(keys, |names|, AND, placeholder)
  }

  function InsertFrags(schema: Frag, table: Frag, names: seq<Frag>, placeholder: Placeholder): seq<Frag> {
    INSERT_WORDS + TableFrags(schema, table) + [Blank, Sign('(')] + NameFrags(names)
    + [Sign(')'), Blank, Plain("VALUES"), Blank, Sign('(')] + HoleListFrags(|names|, placeholder) + [Sign(')')]
  }

  function DefaultsFrags(schema: Frag, table: Frag, defaults: seq<Frag>): seq<Frag> {
    INSERT_WORDS + TableFrags(schema, table) + defaults
  }

  // ----- the model's text is that of the pieces -----

  lemma {:induction false} TextOfConcat(meta: Meta, a: seq<Piece>, b: seq<Piece>)
    ensures Text(meta, a + b) == Text(meta, a) + Text(meta, b)
  {
    if b == [] {
      assert a + b == a;
    } else {
      hide Bind;
      var last := b[|b| - 1];
      assert (a + b)[..|a + b| - 1] == a + b[..|b| - 1] && (a + b)[|a + b| - 1] == last;
      TextOfConcat(meta, a, b[..|b| - 1]);
      Associates(Text(meta, a), Text(meta, b[..|b| - 1]), if last.Sql? then last.text else Bind(meta, last.position));
    }
  }

  lemma TextOfSql(meta: Meta, text: string)
    ensures Text(meta, [Sql(text)]) == text
  {
    assert [Sql(text)][..0] == [];
  }

  lemma TextOfPair(meta: Meta, text: string, position: nat)
    ensures Text(meta, [Sql(text), Hole(position)]) == text + Bind(meta, position)
  {
    TextOfSql(meta, text);
    assert [Sql(text), Hole(position)][..1] == [Sql(text)];
  }

  lemma TwoFrags(f: Frag, g: Frag)
    ensures FragsText([f]) == FragText(f) && FragsText([f, g]) == FragText(f) + FragText(g)
  {
    assert [f][1..] == [] && [g][1..] == [] && [f, g][1..] == [g];
  }

  lemma HoleText(meta: Meta, n: nat)
    ensures FragsText(HoleFrags(meta.placeholder, n)) == Bind(meta, n)
  {
    match meta.placeholder
    case Dollar => TwoFrags(Sign('$'), Digits(n));
    case Colon => TwoFrags(Sign(':'), Digits(n));
    case Question => TwoFrags(Sign('?'), Blank);
  }

  lemma JoinerTexts()
    ensures FragsText(AND) == " AND " && FragsText(COMMA) == ", "
  {
    TwoFrags(Sign(','), Blank);
    assert AND[1..] == [Plain("AND"), Blank];
    TwoFrags(Plain("AND"), Blank);
  }

  lemma EquationText(name: Frag, hole: seq<Frag>)
    ensures FragsText([name, Blank, Sign('='), Blank] + hole) == FragText(name) + " = " + FragsText(hole)
  {
    var four := [name, Blank, Sign('='), Blank];
    FragsTextOfConcat(four, hole);
    assert four[1..] == [Blank, Sign('='), Blank] && four[1..][1..] == [Sign('='), Blank];
    TwoFrags(Sign('='), Blank);
    hide FragText;
    FourTexts(name);
  }

  lemma FourTexts(name: Frag)
    ensures FragsText([name, Blank, Sign('='), Blank]) == FragText(name) + " = "
  {
    var four := [name, Blank, Sign('='), Blank];
    assert four[1..] == [Blank, Sign('='), Blank] && four[1..][1..] == [Sign('='), Blank];
    TwoFrags(Sign('='), Blank);
    assert FragsText([Blank, Sign('='), Blank]) == " = ";
  }

  lemma LastEquation(meta: Meta, equations: seq<Equation>, separator: string)
    requires equations != []
    ensures var last := equations[|equations| - 1];
            Text(meta, EquationPieces(equations, separator))
            == Text(meta, EquationPieces(equations[..|equations| - 1], separator))
               + ((if |equations| == 1 then "" else separator) + last.name + " = " + Bind(meta, last.hole))
  {
    hide Text, Bind;
    var last := equations[|equations| - 1];
    var text := (if |equations| == 1 then "" else separator) + last.name + " = ";
    TextOfConcat(meta, EquationPieces(equations[..|equations| - 1], separator), [Sql(text), Hole(last.hole)]);
    TextOfPair(meta, text, last.hole);
  }

  lemma LastEquationFrags(names: seq<Frag>, first: nat, joiner: seq<Frag>, placeholder: Placeholder)
    requires names != []
    ensures var n := |names| - 1;
            FragsText(EquationFrags(names, first, joiner, placeholder))
            == FragsText(EquationFrags(names[..n], first, joiner, placeholder))
               + ((if n == 0 then "" else FragsText(joiner)) + FragText(names[n]) + " = "
                  + FragsText(HoleFrags(placeholder, first + n + 1)))
  {
    hide FragText, HoleFrags, FragsText;
    var n := |names| - 1;
    var front, glue := EquationFrags(names[..n], first, joiner, placeholder), if n == 0 then [] else joiner;
    OneMoreEquation(front, glue, names[n], HoleFrags(placeholder, first + n + 1));
    NoText();
  }

  lemma OneMoreEquation(front: seq<Frag>, glue: seq<Frag>, name: Frag, hole: seq<Frag>)
    ensures FragsText(front + glue + ([name, Blank, Sign('='), Blank] + hole))
            == FragsText(front) + (FragsText(glue) + FragText(name) + " = " + FragsText(hole))
  {
    FragsTextOfConcat(front + glue, [name, Blank, Sign('='), Blank] + hole);
    FragsTextOfConcat(front, glue);
    EquationText(name, hole);
    hide FragsText, FragText;
    ThreeTexts(FragsText(front), FragsText(glue), FragText(name), FragsText(hole));
  }

  lemma NoText()
    ensures FragsText([]) == ""
  {
  }

  lemma ThreeTexts(a: string, b: string, c: string, e: string)
    ensures a + b + (c + " = " + e) == a + (b + c + " = " + e)
  {
  }

  lemma {:induction false} EquationTexts(meta: Meta, equations: seq<Equation>, names: seq<Frag>, first: nat,
                                         joiner: seq<Frag>)
    requires |equations| == |names|
    requires forall i | 0 <= i < |names| :: equations[i] == Equation(FragText(names[i]), first + 1 + i)
    ensures Text(meta, EquationPieces(equations, FragsText(joiner)))
            == FragsText(EquationFrags(names, first, joiner, meta.placeholder))
  {
    if names != [] {
      hide Text, EquationPieces, FragText, FragsText, EquationFrags, HoleFrags, Bind;
      var n := |names| - 1;
      EquationTexts(meta, equations[..n], names[..n], first, joiner);
      LastEquation(meta, equations, FragsText(joiner));
      LastEquationFrags(names, first, joiner, meta.placeholder);
      HoleText(meta, first + n + 1);
      assert equations[n] == Equation(FragText(names[n]), first + n + 1);
    } else {
      NoEquations(meta, FragsText(joiner), first, joiner);
    }
  }

  lemma NoEquations(meta: Meta, separator: string, first: nat, joiner: seq<Frag>)
    ensures Text(meta, EquationPieces([], separator)) == FragsText(EquationFrags([], first, joiner, meta.placeholder))
  {
  }

  lemma {:induction false} NameTexts(names: seq<string>, frags: seq<Frag>)
    requires |names| == |frags| && forall i | 0 <= i < |names| :: names[i] == FragText(frags[i])
    ensures JoinNames(names) == FragsText(NameFrags(frags))
  {
    if names != [] {
      hide FragText;
      var n := |names| - 1;
      NameTexts(names[..n], frags[..n]);
      var front, glue := NameFrags(frags[..n]), if n == 0 then [] else COMMA;
      FragsTextOfConcat(front + glue, [frags[n]]);
      FragsTextOfConcat(front, glue);
      TwoFrags(frags[n], Blank);
      JoinerTexts();
    }
  }

  lemma {:induction false} HoleTexts(meta: Meta, n: nat)
    ensures Text(meta, HolePieces(From(0, n))) == FragsText(HoleListFrags(n, meta.placeholder))
  {
    if n > 0 {
      HoleTexts(meta, n - 1);
      var holes := From(0, n);
      assert holes[..n - 1] == From(0, n - 1);
      hide FragText, Bind, FragsText, Text;
      var text := if n == 1 then "" else ", ";
      TextOfConcat(meta, HolePieces(holes[..n - 1]), [Sql(text), Hole(n)]);
      TextOfPair(meta, text, n);
      OneMoreHole(meta, n);
    }
  }

  lemma OneMoreHole(meta: Meta, n: nat)
    requires n > 0
    ensures FragsText(HoleListFrags(n, meta.placeholder))
            == FragsText(HoleListFrags(n - 1, meta.placeholder)) + ((if n == 1 then "" else ", ") + Bind(meta, n))
  {
    hide FragText, Bind, FragsText, HoleFrags;
    var front, glue := HoleListFrags(n - 1, meta.placeholder), if n == 1 then [] else COMMA;
    FragsTextOfConcat(front + glue, HoleFrags(meta.placeholder, n));
    FragsTextOfConcat(front, glue);
    HoleText(meta, n);
    JoinerTexts();
    NoText();
  }

  // ----- the pieces can be read -----

  /** Readable pieces that end with a placeholder, if there are any. */
  predicate Listed(frags: seq<Frag>, d: Dialect) {
    && Readable(frags, d)
    && (frags != [] ==> frags[|frags| - 1].Digits? || frags[|frags| - 1] == Sign('?'))
  }

  predicate IsJoiner(joiner: seq<Frag>) {
    joiner == AND || joiner == COMMA
  }

  lemma HolesAreReadable(placeholder: Placeholder, n: nat, d: Dialect)
    ensures Listed(HoleFrags(placeholder, n), d) && HoleFrags(placeholder, n) != []
  {
  }

  lemma JoinersAreReadable(joiner: seq<Frag>, d: Dialect)
    requires IsJoiner(joiner)
    ensures Readable(joiner, d) && joiner != [] && joiner[|joiner| - 1] == Blank
    ensures joiner[0] == Blank || joiner[0] == Sign(',')
  {
    assert LetterByte("AND"[0]);
  }

  lemma EquationIsReadable(name: Frag, placeholder: Placeholder, n: nat, d: Dialect)
    requires IsName(name, d)
    ensures Listed(EquationOf(name, n, placeholder), d) && EquationOf(name, n, placeholder) != []
  {
    HolesAreReadable(placeholder, n, d);
    var four := [name, Blank, Sign('='), Blank];
    assert Readable(four, d);
    ReadableConcat(four, HoleFrags(placeholder, n), d);
  }

  lemma JoinedIsReadable(front: seq<Frag>, joiner: seq<Frag>, last: seq<Frag>, d: Dialect)
    requires Listed(front, d) && Listed(last, d) && last != [] && IsJoiner(joiner)
    ensures Listed(front + (if front == [] then [] else joiner) + last, d)
  {
    JoinersAreReadable(joiner, d);
    hide ValidFrag;
    if front == [] {
      assert front + [] + last == last;
    } else {
      ReadableConcat(front, joiner, d);
      ReadableConcat(front + joiner, last, d);
    }
  }

  lemma EquationsNotEmpty(names: seq<Frag>, first: nat, joiner: seq<Frag>, placeholder: Placeholder)
    ensures EquationFrags(names, first, joiner, placeholder) == [] <==> names == []
  {
  }

  lemma {:induction false} EquationsAreReadable(names: seq<Frag>, first: nat, joiner: seq<Frag>,
                                                placeholder: Placeholder, d: Dialect)
    requires (forall i | 0 <= i < |names| :: IsName(names[i], d)) && IsJoiner(joiner)
    ensures Listed(EquationFrags(names, first, joiner, placeholder), d)
  {
    hide Listed, IsName, HoleFrags, IsJoiner, EquationOf;
    if names != [] {
      var n := |names| - 1;
      EquationsAreReadable(names[..n], first, joiner, placeholder, d);
      EquationIsReadable(names[n], placeholder, first + n + 1, d);
      EquationsNotEmpty(names[..n], first, joiner, placeholder);
      var front, last := EquationFrags(names[..n], first, joiner, placeholder),
                         EquationOf(names[n], first + n + 1, placeholder);
      assert EquationFrags(names, first, joiner, placeholder) == front + (if front == [] then [] else joiner) + last;
      hide EquationFrags;
      JoinedIsReadable(front, joiner, last, d);
    } else {
      NothingListed(d);
    }
  }

  lemma NothingListed(d: Dialect)
    ensures Listed([], d)
  {
  }

  /** Readable pieces that end with a name, if there are any. */
  predicate NamesListed(frags: seq<Frag>, d: Dialect) {
    Readable(frags, d) && (frags != [] ==> IsName(frags[|frags| - 1], d))
  }

  lemma {:induction false} NamesAreReadable(names: seq<Frag>, d: Dialect)
    requires forall i | 0 <= i < |names| :: IsName(names[i], d)
    ensures NamesListed(NameFrags(names), d) && (NameFrags(names) == [] <==> names == [])
  {
    if names != [] {
      hide ValidFrag;
      var n := |names| - 1;
      NamesAreReadable(names[..n], d);
      OneMoreName(NameFrags(names[..n]), names[n], d);
    }
  }

  lemma OneMoreName(front: seq<Frag>, name: Frag, d: Dialect)
    requires NamesListed(front, d) && IsName(name, d)
    ensures NamesListed(front + (if front == [] then [] else COMMA) + [name], d)
  {
    JoinersAreReadable(COMMA, d);
    hide ValidFrag;
    if front == [] {
      assert front + [] + [name] == [name];
    } else {
      ReadableConcat(front, COMMA, d);
      ReadableConcat(front + COMMA, [name], d);
    }
  }

  lemma {:induction false} HoleListIsReadable(n: nat, placeholder: Placeholder, d: Dialect)
    ensures Listed(HoleListFrags(n, placeholder), d) && (HoleListFrags(n, placeholder) == [] <==> n == 0)
  {
    hide Listed, HoleFrags;
    if n > 0 {
      HoleListIsReadable(n - 1, placeholder, d);
      HolesAreReadable(placeholder, n, d);
      var front, last := HoleListFrags(n - 1, placeholder), HoleFrags(placeholder, n);
      assert HoleListFrags(n, placeholder) == front + (if front == [] then [] else COMMA) + last;
      hide HoleListFrags;
      JoinedIsReadable(front, COMMA, last, d);
    } else {
      NothingListed(d);
    }
  }

  // ----- whole statements -----

  /** The names of the columns of cells, and of the key. */
  function NamesOf(names: map<Column, Frag>, cells: seq<Cell>): seq<Frag>
    requires forall cell | cell in cells :: cell.column in names
  {
    seq(|cells|, i requires 0 <= i < |cells| => names[cells[i].column])
  }

  function KeyNames(meta: Meta, names: map<Column, Frag>): seq<Frag>
    requires forall c | c in meta.keys :: c in names
  {
    seq(|meta.keys|, i requires 0 <= i < |meta.keys| => names[meta.keys[i]])
  }

  /** The pieces of a text can be read, and their text is the statement's. */
  predicate IsTextOf(frags: seq<Frag>, meta: Meta, statement: Statement, d: Dialect) {
    && Readable(frags, d) && (frags != [] ==> !frags[|frags| - 1].Sign? || frags[|frags| - 1].c != '.')
    && FragsText(frags) == Text(meta, Pieces(statement))
  }

  /** Readable pieces from `first` to `last` with a text. */
  predicate Phrase(frags: seq<Frag>, text: string, first: Frag, last: Frag, d: Dialect) {
    && frags != [] && frags[0] == first && frags[|frags| - 1] == last
    && Readable(frags, d) && FragsText(frags) == text
  }

  lemma OnePhrase(f: Frag, d: Dialect)
    requires ValidFrag(f, d)
    ensures Phrase([f], FragText(f), f, f, d)
  {
    assert [f][1..] == [];
  }

  lemma TwoPhrases(a: seq<Frag>, s: string, first: Frag, f: Frag, b: seq<Frag>, t: string, g: Frag, last: Frag,
                   d: Dialect)
    requires Phrase(a, s, first, f, d) && Phrase(b, t, g, last, d) && MayFollow(f, g)
    ensures Phrase(a + b, s + t, first, last, d)
  {
    hide Readable, FragsText, MayFollow;
    ReadableConcat(a, b, d);
    FragsTextOfConcat(a, b);
  }

  lemma WordPhrase(word: string, d: Dialect)
    requires ValidFrag(Plain(word), d)
    ensures Phrase([Plain(word), Blank], word + " ", Plain(word), Blank, d)
    ensures Phrase([Blank, Plain(word), Blank], " " + word + " ", Blank, Blank, d)
  {
    OnePhrase(Blank, d);
    OnePhrase(Plain(word), d);
    hide Phrase, ValidFrag;
    assert FragText(Plain(word)) == word && FragText(Blank) == " ";
    TwoPhrases([Plain(word)], word, Plain(word), Plain(word), [Blank], " ", Blank, Blank, d);
    TwoPhrases([Blank], " ", Blank, Blank, [Plain(word)] + [Blank], word + " ", Plain(word), Blank, d);
    assert [Plain(word)] + [Blank] == [Plain(word), Blank];
    assert [Blank] + [Plain(word), Blank] == [Blank, Plain(word), Blank];
    assert " " + (word + " ") == " " + word + " ";
  }

  lemma TwoWords(a: string, b: string, d: Dialect)
    requires ValidFrag(Plain(a), d) && ValidFrag(Plain(b), d)
    ensures Phrase([Plain(a), Blank, Plain(b), Blank], a + " " + b + " ", Plain(a), Blank, d)
  {
    hide Phrase, ValidFrag;
    WordPhrase(a, d);
    WordPhrase(b, d);
    TwoPhrases([Plain(a), Blank], a + " ", Plain(a), Blank, [Plain(b), Blank], b + " ", Plain(b), Blank, d);
    assert [Plain(a), Blank] + [Plain(b), Blank] == [Plain(a), Blank, Plain(b), Blank];
    assert a + " " + (b + " ") == a + " " + b + " ";
  }

  lemma TablePhrase(schema: Frag, table: Frag, d: Dialect)
    requires IsName(schema, d) && IsName(table, d)
    ensures Phrase(TableFrags(schema, table), FragText(schema) + "." + FragText(table), schema, table, d)
  {
    OnePhrase(schema, d);
    OnePhrase(Sign('.'), d);
    OnePhrase(table, d);
    assert MayFollow(schema, Sign('.')) && MayFollow(Sign('.'), table);
    assert FragText(Sign('.')) == ".";
    hide Phrase, ValidFrag, FragText, MayFollow;
    TwoPhrases([schema], FragText(schema), schema, schema, [Sign('.')], ".", Sign('.'), Sign('.'), d);
    TwoPhrases([schema] + [Sign('.')], FragText(schema) + ".", schema, Sign('.'), [table], FragText(table), table,
               table, d);
    assert [schema] + [Sign('.')] + [table] == TableFrags(schema, table);
  }

  lemma Words(d: Dialect)
    ensures forall word | word in {"DELETE", "FROM", "WHERE", "UPDATE", "SET", "INSERT", "INTO", "VALUES", "DEFAULT"} ::
              ValidFrag(Plain(word), d)
  {
  }

  const INSERT_WORDS: seq<Frag> := [Plain("INSERT"), Blank, Plain("INTO"), Blank]

  lemma HeadPhrases(d: Dialect)
    ensures Phrase(INSERT_WORDS, "INSERT INTO ", Plain("INSERT"), Blank, d)
    ensures Phrase([Plain("DELETE"), Blank, Plain("FROM"), Blank], "DELETE FROM ", Plain("DELETE"), Blank, d)
    ensures Phrase([Plain("UPDATE"), Blank], "UPDATE ", Plain("UPDATE"), Blank, d)
    ensures Phrase([Blank, Plain("SET"), Blank], " SET ", Blank, Blank, d)
    ensures Phrase([Blank, Plain("WHERE"), Blank], " WHERE ", Blank, Blank, d)
  {
    hide Phrase, ValidFrag;
    Words(d);
    TwoWords("INSERT", "INTO", d);
    TwoWords("DELETE", "FROM", d);
    WordPhrase("UPDATE", d);
    WordPhrase("SET", d);
    WordPhrase("WHERE", d);
    assert "INSERT" + " " + "INTO" + " " == "INSERT INTO " && "DELETE" + " " + "FROM" + " " == "DELETE FROM ";
    assert "UPDATE" + " " == "UPDATE " && " " + "SET" + " " == " SET " && " " + "WHERE" + " " == " WHERE ";
  }

  /** A head of words, the table, and what follows it in blanks or parentheses. */
  lemma Headed(words: seq<Frag>, text: string, first: Frag, schema: Frag, table: Frag, tail: seq<Frag>, behind: string,
               last: Frag, d: Dialect)
    requires IsName(schema, d) && IsName(table, d)
    requires Phrase(words, text, first, Blank, d) && Phrase(tail, behind, Blank, last, d)
    ensures Phrase(words + TableFrags(schema, table) + tail, text + (FragText(schema) + "." + FragText(table)) + behind,
                   first, last, d)
  {
    TablePhrase(schema, table, d);
    hide Phrase, FragText, TableFrags, ValidFrag;
    var named := FragText(schema) + "." + FragText(table);
    TwoPhrases(words, text, first, Blank, TableFrags(schema, table), named, schema, table, d);
    TwoPhrases(words + TableFrags(schema, table), text + named, first, table, tail, behind, Blank, last, d);
  }

  /** The conditions stand behind, if there are any. */
  lemma Conditioned(front: seq<Frag>, text: string, first: Frag, conditions: seq<Frag>, meta: Meta,
                    statement: Statement, d: Dialect)
    requires Phrase(front, text, first, Blank, d) && Listed(conditions, d)
    requires Text(meta, Pieces(statement)) == text + FragsText(conditions)
    ensures IsTextOf(front + conditions, meta, statement, d)
  {
    hide FragsText, Text, Pieces;
    if conditions == [] {
      assert front + conditions == front;
    } else {
      ReadableConcat(front, conditions, d);
    }
    FragsTextOfConcat(front, conditions);
  }

  lemma DeleteIsText(meta: Meta, schema: Frag, table: Frag, names: map<Column, Frag>, key: seq<Cell>, d: Dialect)
    requires WellFormed(meta) && Written(meta, schema, table, names, d) && ValidKey(meta, key)
    ensures IsTextOf(DeleteFrags(schema, table, KeyNames(meta, names), meta.placeholder), meta,
                     Delete(meta.qualifiedName, KeyEquations(meta, |meta.keys|, 0)), d)
  {
    hide Readable, FragsText, FragText, EquationFrags, EquationPieces, Text, ValidFrag, MayFollow, ValidKey;
    JoinerTexts();
    var keys := KeyNames(meta, names);
    var conditions := EquationFrags(keys, 0, AND, meta.placeholder);
    EquationTexts(meta, KeyEquations(meta, |meta.keys|, 0), keys, 0, AND);
    EquationsAreReadable(keys, 0, AND, meta.placeholder, d);
    DeleteIsRead(meta, schema, table, conditions, KeyEquations(meta, |meta.keys|, 0), d);
  }

  lemma DeleteIsRead(meta: Meta, schema: Frag, table: Frag, conditions: seq<Frag>, where: seq<Equation>, d: Dialect)
    requires IsName(schema, d) && IsName(table, d) && meta.qualifiedName == FragText(schema) + "." + FragText(table)
    requires Listed(conditions, d) && FragsText(conditions) == Text(meta, EquationPieces(where, " AND "))
    ensures IsTextOf([Plain("DELETE"), Blank, Plain("FROM"), Blank] + TableFrags(schema, table)
                     + [Blank, Plain("WHERE"), Blank] + conditions, meta, Delete(meta.qualifiedName, where), d)
  {
    hide FragsText, FragText, EquationPieces, Text, ValidFrag, Phrase, TableFrags, IsName, Listed, IsTextOf;
    HeadPhrases(d);
    var head, middle := [Plain("DELETE"), Blank, Plain("FROM"), Blank], [Blank, Plain("WHERE"), Blank];
    Headed(head, "DELETE FROM ", Plain("DELETE"), schema, table, middle, " WHERE ", Blank, d);
    DeletePieces(meta, where);
    Conditioned(head + TableFrags(schema, table) + middle, "DELETE FROM " + meta.qualifiedName + " WHERE ",
                Plain("DELETE"), conditions, meta, Delete(meta.qualifiedName, where), d);
  }

  lemma DeletePieces(meta: Meta, where: seq<Equation>)
    ensures Text(meta, Pieces(Delete(meta.qualifiedName, where)))
            == "DELETE FROM " + meta.qualifiedName + " WHERE " + Text(meta, EquationPieces(where, " AND "))
  {
    hide Text, EquationPieces;
    TextOfConcat(meta, [Sql("DELETE FROM " + meta.qualifiedName + " WHERE ")], EquationPieces(where, " AND "));
    TextOfSql(meta, "DELETE FROM " + meta.qualifiedName + " WHERE ");
  }

  lemma UpdateIsText(meta: Meta, schema: Frag, table: Frag, names: map<Column, Frag>, change: RowChange, d: Dialect)
    requires WellFormed(meta) && Written(meta, schema, table, names, d)
    requires ValidKey(meta, change.key) && ValidValues(meta, change.values) && change.values != []
    ensures IsTextOf(UpdateFrags(schema, table, NamesOf(names, change.values), KeyNames(meta, names), meta.placeholder),
                     meta, Update(meta.qualifiedName, Sets(Names(meta, change.values)),
                            KeyEquations(meta, |meta.keys|, |change.values|)), d)
  {
    hide Readable, FragsText, FragText, EquationFrags, EquationPieces, Text, ValidFrag, MayFollow, ValidKey;
    JoinerTexts();
    var columns, keys := NamesOf(names, change.values), KeyNames(meta, names);
    var sets, where := Sets(Names(meta, change.values)), KeyEquations(meta, |meta.keys|, |change.values|);
    EquationTexts(meta, sets, columns, 0, COMMA);
    EquationTexts(meta, where, keys, |columns|, AND);
    EquationsAreReadable(columns, 0, COMMA, meta.placeholder, d);
    EquationsAreReadable(keys, |columns|, AND, meta.placeholder, d);
    EquationsNotEmpty(columns, 0, COMMA, meta.placeholder);
    UpdateIsRead(meta, schema, table, EquationFrags(columns, 0, COMMA, meta.placeholder), sets,
                 EquationFrags(keys, |columns|, AND, meta.placeholder), where, d);
  }

  lemma UpdateIsRead(meta: Meta, schema: Frag, table: Frag, settings: seq<Frag>, sets: seq<Equation>,
                     conditions: seq<Frag>, where: seq<Equation>, d: Dialect)
    requires IsName(schema, d) && IsName(table, d) && meta.qualifiedName == FragText(schema) + "." + FragText(table)
    requires Listed(settings, d) && settings != [] && FragsText(settings) == Text(meta, EquationPieces(sets, ", "))
    requires Listed(conditions, d) && FragsText(conditions) == Text(meta, EquationPieces(where, " AND "))
    ensures IsTextOf([Plain("UPDATE"), Blank] + TableFrags(schema, table) + [Blank, Plain("SET"), Blank] + settings
                     + [Blank, Plain("WHERE"), Blank] + conditions, meta, Update(meta.qualifiedName, sets, where), d)
  {
    ListedPhrase(settings, d);
    hide FragsText, FragText, EquationPieces, Text, ValidFrag, Phrase, TableFrags, IsName, Listed, IsTextOf, MayFollow;
    HeadPhrases(d);
    var head, middle, behind := [Plain("UPDATE"), Blank], [Blank, Plain("SET"), Blank], [Blank, Plain("WHERE"), Blank];
    Headed(head, "UPDATE ", Plain("UPDATE"), schema, table, middle, " SET ", Blank, d);
    var front, text := head + TableFrags(schema, table) + middle, "UPDATE " + meta.qualifiedName + " SET ";
    TwoPhrases(front, text, Plain("UPDATE"), Blank, settings, FragsText(settings), settings[0],
               settings[|settings| - 1], d);
    TwoPhrases(front + settings, text + FragsText(settings), Plain("UPDATE"), settings[|settings| - 1], behind,
               " WHERE ",
               Blank, Blank, d);
    UpdatePieces(meta, sets, where);
    Conditioned(front + settings + behind, text + FragsText(settings) + " WHERE ", Plain("UPDATE"), conditions, meta,
                Update(meta.qualifiedName, sets, where), d);
  }

  lemma ListedPhrase(frags: seq<Frag>, d: Dialect)
    requires Listed(frags, d) && frags != []
    ensures Phrase(frags, FragsText(frags), frags[0], frags[|frags| - 1], d)
    ensures MayFollow(Blank, frags[0]) && MayFollow(frags[|frags| - 1], Blank)
    ensures MayFollow(Sign('('), frags[0]) && MayFollow(frags[|frags| - 1], Sign(')'))
  {
    hide Readable, FragsText;
  }

  lemma NamesPhrase(frags: seq<Frag>, d: Dialect)
    requires NamesListed(frags, d) && frags != []
    ensures Phrase(frags, FragsText(frags), frags[0], frags[|frags| - 1], d)
    ensures MayFollow(Sign('('), frags[0]) && MayFollow(frags[|frags| - 1], Sign(')'))
  {
    hide Readable, FragsText;
  }

  lemma UpdatePieces(meta: Meta, sets: seq<Equation>, where: seq<Equation>)
    ensures Text(meta, Pieces(Update(meta.qualifiedName, sets, where)))
            == "UPDATE " + meta.qualifiedName + " SET " + Text(meta, EquationPieces(sets, ", ")) + " WHERE "
               + Text(meta, EquationPieces(where, " AND "))
  {
    hide Text, EquationPieces;
    var head, first, second := "UPDATE " + meta.qualifiedName + " SET ", EquationPieces(sets, ", "),
                               EquationPieces(where, " AND ");
    TextOfSql(meta, head);
    TextOfSql(meta, " WHERE ");
    TextOfConcat(meta, [Sql(head)], first);
    TextOfConcat(meta, [Sql(head)] + first, [Sql(" WHERE ")]);
    TextOfConcat(meta, [Sql(head)] + first + [Sql(" WHERE ")], second);
  }

  lemma InsertIsText(meta: Meta, schema: Frag, table: Frag, names: map<Column, Frag>, values: seq<Cell>, d: Dialect)
    requires WellFormed(meta) && Written(meta, schema, table, names, d) && ValidValues(meta, values) && values != []
    ensures IsTextOf(InsertFrags(schema, table, NamesOf(names, values), meta.placeholder), meta,
                     Insert(meta.qualifiedName, Names(meta, values), From(0, |values|)), d)
  {
    hide Readable, FragsText, FragText, NameFrags, HoleListFrags, JoinNames, HolePieces, Text, ValidFrag, MayFollow;
    var columns := NamesOf(names, values);
    NameTexts(Names(meta, values), columns);
    HoleTexts(meta, |values|);
    NamesAreReadable(columns, d);
    HoleListIsReadable(|values|, meta.placeholder, d);
    InsertIsRead(meta, schema, table, NameFrags(columns), Names(meta, values),
                 HoleListFrags(|values|, meta.placeholder),
                 From(0, |values|), d);
  }

  lemma InsertIsRead(meta: Meta, schema: Frag, table: Frag, columns: seq<Frag>, names: seq<string>, list: seq<Frag>,
                     holes: seq<nat>, d: Dialect)
    requires IsName(schema, d) && IsName(table, d) && meta.qualifiedName == FragText(schema) + "." + FragText(table)
    requires NamesListed(columns, d) && columns != [] && FragsText(columns) == JoinNames(names)
    requires Listed(list, d) && list != [] && FragsText(list) == Text(meta, HolePieces(holes))
    ensures IsTextOf(INSERT_WORDS + TableFrags(schema, table) + [Blank, Sign('(')]
                     + columns + [Sign(')'), Blank, Plain("VALUES"), Blank, Sign('(')] + list + [Sign(')')],
                     meta, Insert(meta.qualifiedName, names, holes), d)
  {
    hide FragsText, FragText, JoinNames, HolePieces, Text, ValidFrag, TableFrags, Phrase, MayFollow, IsName, Listed,
         NamesListed;
    var front := INSERT_WORDS + TableFrags(schema, table) + [Blank, Sign('(')];
    var text := "INSERT INTO " + meta.qualifiedName + " (";
    var tail, behind := list + [Sign(')')], FragsText(list) + ")";
    InsertFront(schema, table, columns, d);
    InsertTail(list, d);
    var middle := [Sign(')'), Blank, Plain("VALUES"), Blank, Sign('(')];
    TwoPhrases(front + columns + middle, text + FragsText(columns) + ") VALUES (", Plain("INSERT"),
               Sign('('), tail, behind, list[0], Sign(')'), d);
    InsertPieces(meta, names, holes);
    Associates(text + FragsText(columns) + ") VALUES (", FragsText(list), ")");
    Associates(front + columns + middle, list, [Sign(')')]);
    PhraseIsText(front + columns + middle + tail, text + FragsText(columns) + ") VALUES (" + behind, Plain("INSERT"),
                 Sign(')'), meta, Insert(meta.qualifiedName, names, holes), d);
  }

  lemma InsertFront(schema: Frag, table: Frag, columns: seq<Frag>, d: Dialect)
    requires IsName(schema, d) && IsName(table, d) && NamesListed(columns, d) && columns != []
    ensures Phrase(INSERT_WORDS + TableFrags(schema, table) + [Blank, Sign('(')] + columns
                   + [Sign(')'), Blank, Plain("VALUES"), Blank, Sign('(')],
                   "INSERT INTO " + (FragText(schema) + "." + FragText(table)) + " (" + FragsText(columns)
                     + ") VALUES (",
                   Plain("INSERT"), Sign('('), d)
  {
    NamesPhrase(columns, d);
    SignPhrases(d);
    HeadPhrases(d);
    hide FragsText, FragText, ValidFrag, TableFrags, Phrase, MayFollow, IsName, NamesListed;
    Headed(INSERT_WORDS, "INSERT INTO ", Plain("INSERT"), schema, table, [Blank, Sign('(')], " (", Sign('('), d);
    var a, s := INSERT_WORDS + TableFrags(schema, table) + [Blank, Sign('(')],
                "INSERT INTO " + (FragText(schema) + "." + FragText(table)) + " (";
    var name := columns[|columns| - 1];
    TwoPhrases(a, s, Plain("INSERT"), Sign('('), columns, FragsText(columns), columns[0], name, d);
    TwoPhrases(a + columns, s + FragsText(columns), Plain("INSERT"), name,
               [Sign(')'), Blank, Plain("VALUES"), Blank, Sign('(')], ") VALUES (", Sign(')'), Sign('('), d);
  }

  lemma InsertTail(list: seq<Frag>, d: Dialect)
    requires Listed(list, d) && list != []
    ensures Phrase(list + [Sign(')')], FragsText(list) + ")", list[0], Sign(')'), d) && MayFollow(Sign('('), list[0])
  {
    ListedPhrase(list, d);
    SignPhrases(d);
    hide FragsText, FragText, Phrase, MayFollow, Listed;
    TwoPhrases(list, FragsText(list), list[0], list[|list| - 1], [Sign(')')], ")", Sign(')'), Sign(')'), d);
  }

  lemma PhraseIsText(frags: seq<Frag>, text: string, first: Frag, last: Frag, meta: Meta, statement: Statement,
                     d: Dialect)
    requires Phrase(frags, text, first, last, d) && last != Sign('.') && text == Text(meta, Pieces(statement))
    ensures IsTextOf(frags, meta, statement, d)
  {
    hide Readable, FragsText, Text, Pieces;
  }

  lemma SignPhrases(d: Dialect)
    ensures Phrase([Blank, Sign('(')], " (", Blank, Sign('('), d)
    ensures Phrase([Sign(')'), Blank, Plain("VALUES"), Blank, Sign('(')], ") VALUES (", Sign(')'), Sign('('), d)
    ensures Phrase([Sign(')')], ")", Sign(')'), Sign(')'), d)
  {
    Words(d);
    OnePhrase(Blank, d);
    OnePhrase(Sign('('), d);
    OnePhrase(Sign(')'), d);
    WordPhrase("VALUES", d);
    assert FragText(Sign('(')) == "(" && FragText(Sign(')')) == ")" && FragText(Blank) == " ";
    assert " " + "(" == " (" && " " + "VALUES" + " " == " VALUES " && ")" + " VALUES " + "(" == ") VALUES (";
    hide Phrase, ValidFrag, FragText;
    TwoPhrases([Blank], " ", Blank, Blank, [Sign('(')], "(", Sign('('), Sign('('), d);
    assert [Blank] + [Sign('(')] == [Blank, Sign('(')];
    var inner := [Blank, Plain("VALUES"), Blank];
    TwoPhrases([Sign(')')], ")", Sign(')'), Sign(')'), inner, " VALUES ", Blank, Blank, d);
    TwoPhrases([Sign(')')] + inner, ")" + " VALUES ", Sign(')'), Blank, [Sign('(')], "(", Sign('('), Sign('('), d);
    assert [Sign(')')] + inner + [Sign('(')] == [Sign(')'), Blank, Plain("VALUES"), Blank, Sign('(')];
  }

  lemma InsertPieces(meta: Meta, names: seq<string>, holes: seq<nat>)
    ensures Text(meta, Pieces(Insert(meta.qualifiedName, names, holes)))
            == "INSERT INTO " + meta.qualifiedName + " (" + JoinNames(names) + ") VALUES ("
               + Text(meta, HolePieces(holes)) + ")"
  {
    hide Text, HolePieces, JoinNames;
    var head := "INSERT INTO " + meta.qualifiedName + " (" + JoinNames(names) + ") VALUES (";
    TextOfSql(meta, head);
    TextOfSql(meta, ")");
    TextOfConcat(meta, [Sql(head)], HolePieces(holes));
    TextOfConcat(meta, [Sql(head)] + HolePieces(holes), [Sql(")")]);
  }

  lemma DefaultsAreText(meta: Meta, schema: Frag, table: Frag, defaults: seq<Frag>, text: string, d: Dialect)
    requires IsName(schema, d) && IsName(table, d) && meta.qualifiedName == FragText(schema) + "." + FragText(table)
    requires Readable(defaults, d) && defaults != [] && defaults[0] == Blank && defaults[|defaults| - 1] != Sign('.')
    requires FragsText(defaults) == text
    ensures IsTextOf(DefaultsFrags(schema, table, defaults), meta, InsertDefaults(meta.qualifiedName, text), d)
  {
    var last := defaults[|defaults| - 1];
    assert Phrase(defaults, text, Blank, last, d);
    HeadPhrases(d);
    hide FragsText, FragText, Text, ValidFrag, Readable, TableFrags, Phrase, IsName;
    Headed(INSERT_WORDS, "INSERT INTO ", Plain("INSERT"), schema, table, defaults, text,
           last, d);
    DefaultsPieces(meta, text);
    hide Pieces;
    PhraseIsText(DefaultsFrags(schema, table, defaults), "INSERT INTO " + meta.qualifiedName + text, Plain("INSERT"),
                 last, meta, InsertDefaults(meta.qualifiedName, text), d);
  }

  lemma DefaultsPieces(meta: Meta, text: string)
    ensures Text(meta, Pieces(InsertDefaults(meta.qualifiedName, text))) == "INSERT INTO " + meta.qualifiedName + text
  {
    TextOfSql(meta, "INSERT INTO " + meta.qualifiedName + text);
  }

  // ----- what the database reads -----

  /** What a statement without values ends with, as the engine writes it. */
  predicate WritesDefaults(meta: Meta, defaults: seq<Frag>, d: Dialect) {
    && Readable(defaults, d) && defaults != [] && defaults[0] == Blank && defaults[|defaults| - 1] != Sign('.')
    && FragsText(defaults) == if meta.defaultValues == "" then " DEFAULT VALUES" else meta.defaultValues
  }

  /** The statement of a change in pieces, each clause written out. */
  function StatementFrags(meta: Meta, kind: Kind, change: RowChange, schema: Frag, table: Frag,
                          names: map<Column, Frag>, defaults: seq<Frag>): seq<Frag>
    requires forall c | c in meta.keys :: c in names
    requires forall cell | cell in change.values && kind != Deleting :: cell.column in names
  {
    match kind
    case Deleting => DeleteFrags(schema, table, KeyNames(meta, names), meta.placeholder)
    case Updating =>
      UpdateFrags(schema, table, NamesOf(names, change.values), KeyNames(meta, names), meta.placeholder)
    case Inserting =>
      if change.values == [] then DefaultsFrags(schema, table, defaults)
      else InsertFrags(schema, table, NamesOf(names, change.values), meta.placeholder)
  }

  lemma StatementIsText(meta: Meta, kind: Kind, change: RowChange, schema: Frag, table: Frag, names: map<Column, Frag>,
                        defaults: seq<Frag>, d: Dialect)
    requires WellFormed(meta) && Written(meta, schema, table, names, d) && WritesDefaults(meta, defaults, d)
    requires Built(meta, kind, change).Ok?
    ensures forall c | c in meta.keys :: c in names
    ensures forall cell | cell in change.values && kind != Deleting :: cell.column in names
    ensures IsTextOf(StatementFrags(meta, kind, change, schema, table, names, defaults), meta,
                     Built(meta, kind, change).value.0, d)
  {
    ValidValuesHaveNoError(meta, change.values);
    hide IsTextOf, DeleteFrags, UpdateFrags, InsertFrags, DefaultsFrags, KeyEquations, Sets, Names, From, ValuesError,
         ValidKey, Readable, FragsText, FragText, IsName;
    match kind
    case Deleting => DeleteIsText(meta, schema, table, names, change.key, d);
    case Updating => UpdateIsText(meta, schema, table, names, change, d);
    case Inserting =>
      if change.values == [] {
        DefaultsAreText(meta, schema, table, defaults,
                        if meta.defaultValues == "" then " DEFAULT VALUES" else meta.defaultValues, d);
      } else {
        InsertIsText(meta, schema, table, names, change.values, d);
      }
  }

  /**
   * Whatever the names hold, the text of every statement that is built is read as the words and names of its clauses.
   */
  lemma StatementIsRead(meta: Meta, kind: Kind, change: RowChange, schema: Frag, table: Frag, names: map<Column, Frag>,
                        defaults: seq<Frag>, d: Dialect)
    requires WellFormed(meta) && Written(meta, schema, table, names, d) && WritesDefaults(meta, defaults, d)
    requires Built(meta, kind, change).Ok?
    ensures forall c | c in meta.keys :: c in names
    ensures forall cell | cell in change.values && kind != Deleting :: cell.column in names
    ensures ReadsAs(Text(meta, Pieces(Built(meta, kind, change).value.0)), 0, d,
                    Lexicals(StatementFrags(meta, kind, change, schema, table, names, defaults)))
  {
    StatementIsText(meta, kind, change, schema, table, names, defaults, d);
    hide Text, Pieces, Built, StatementFrags, Lexicals, ReadsAs, Readable, FragsText, Written, WritesDefaults;
    TextIsRead(StatementFrags(meta, kind, change, schema, table, names, defaults), d);
  }

  /** No piece is read as a separator. */
  lemma {:induction false} NoSeparator(frags: seq<Frag>, d: Dialect, i: nat)
    requires (forall k | 0 <= k < |frags| :: ValidFrag(frags[k], d)) && i < |Lexicals(frags)|
    ensures Lexicals(frags)[i].0 != SlashLine && (Lexicals(frags)[i].0 == Symbol ==> Lexicals(frags)[i].1 != ";")
  {
    hide Dec;
    var first := LexicalOf(frags[0]);
    assert ValidFrag(frags[0], d);
    if i >= |first| {
      assert Lexicals(frags)[i] == Lexicals(frags[1..])[i - |first|];
      NoSeparator(frags[1..], d, i - |first|);
    }
  }

  /** Whatever names and values hold, the text is a single statement. */
  lemma StatementIsOne(meta: Meta, kind: Kind, change: RowChange, schema: Frag, table: Frag, names: map<Column, Frag>,
                       defaults: seq<Frag>, d: Dialect)
    requires WellFormed(meta) && Written(meta, schema, table, names, d) && WritesDefaults(meta, defaults, d)
    requires Built(meta, kind, change).Ok?
    ensures var split := S.StatementsOf(Text(meta, Pieces(Built(meta, kind, change).value.0)), d);
            split.Ok? && |split.value| == 1
  {
    StatementIsText(meta, kind, change, schema, table, names, defaults, d);
    StatementIsRead(meta, kind, change, schema, table, names, defaults, d);
    var frags := StatementFrags(meta, kind, change, schema, table, names, defaults);
    var text := Text(meta, Pieces(Built(meta, kind, change).value.0));
    hide Built, Pieces, Text, WritesDefaults, Lexicals, ReadsAs, ValidFrag, StatementFrags, Tokenize, S.StatementsOf,
         Written,
         IsTextOf;
    FirstIsWord(meta, kind, change, schema, table, names, defaults);
    TextIsValid(frags, meta, Built(meta, kind, change).value.0, d);
    ReadsWithoutSeparators(text, frags, d);
  }

  lemma TextIsValid(frags: seq<Frag>, meta: Meta, statement: Statement, d: Dialect)
    requires IsTextOf(frags, meta, statement, d)
    ensures forall k | 0 <= k < |frags| :: ValidFrag(frags[k], d)
  {
    hide FragsText, Text, Pieces, ValidFrag, MayFollow;
  }

  lemma FirstIsWord(meta: Meta, kind: Kind, change: RowChange, schema: Frag, table: Frag, names: map<Column, Frag>,
                    defaults: seq<Frag>)
    requires forall c | c in meta.keys :: c in names
    requires forall cell | cell in change.values && kind != Deleting :: cell.column in names
    ensures var frags := StatementFrags(meta, kind, change, schema, table, names, defaults);
            frags != [] && frags[0].Plain?
  {
    hide EquationFrags, NameFrags, HoleListFrags, TableFrags;
  }

  lemma ReadsWithoutSeparators(text: string, frags: seq<Frag>, d: Dialect)
    requires ReadsAs(text, 0, d, Lexicals(frags)) && forall k | 0 <= k < |frags| :: ValidFrag(frags[k], d)
    requires frags != [] && frags[0].Plain?
    ensures S.StatementsOf(text, d).Ok? && |S.StatementsOf(text, d).value| == 1
  {
    FirstWordIsRead(frags);
    hide Tokenize, Lexicals, ValidFrag, S.StatementsOf;
    var tokens := Tokenize(text, 0, d).tokens;
    forall k | 0 <= k < |tokens|
      ensures tokens[k].kind != SlashLine && !S.IsSemicolon(tokens[k])
    {
      NoSeparator(frags, d, k);
    }
    hide ReadsAs;
    OneStatement(text, tokens, d);
  }

  lemma FirstWordIsRead(frags: seq<Frag>)
    requires frags != [] && frags[0].Plain?
    ensures Lexicals(frags) != []
  {
  }

  /** The three ways in which engines write a statement without values. */
  lemma EnginesWriteDefaults(column: Frag, d: Dialect)
    requires IsName(column, d)
    ensures forall meta: Meta | meta.defaultValues == "" || meta.defaultValues == " DEFAULT VALUES" ::
              WritesDefaults(meta, [Blank, Plain("DEFAULT"), Blank, Plain("VALUES")], d)
    ensures forall meta: Meta | meta.defaultValues == " () VALUES ()" ::
              WritesDefaults(meta, [Blank, Sign('('), Sign(')'), Blank, Plain("VALUES"), Blank, Sign('('), Sign(')')],
                             d)
    ensures forall meta: Meta | meta.defaultValues == " (" + FragText(column) + ") VALUES (DEFAULT)" ::
              WritesDefaults(meta, [Blank, Sign('('), column, Sign(')'), Blank, Plain("VALUES"), Blank, Sign('('),
                                    Plain("DEFAULT"), Sign(')')], d)
  {
    DefaultWords(d);
    EmptyLists(d);
    DefaultList(column, d);
    hide Phrase, ValidFrag, FragText, Readable, FragsText;
    PhraseWrites([Blank, Plain("DEFAULT"), Blank, Plain("VALUES")], " DEFAULT VALUES", Plain("VALUES"), d);
    PhraseWrites([Blank, Sign('('), Sign(')'), Blank, Plain("VALUES"), Blank, Sign('('), Sign(')')], " () VALUES ()",
                 Sign(')'), d);
    PhraseWrites([Blank, Sign('('), column, Sign(')'), Blank, Plain("VALUES"), Blank,
                  Sign('('), Plain("DEFAULT"), Sign(')')],
                 " (" + FragText(column) + ") VALUES (DEFAULT)", Sign(')'), d);
  }

  lemma PhraseWrites(frags: seq<Frag>, text: string, last: Frag, d: Dialect)
    requires Phrase(frags, text, Blank, last, d) && last != Sign('.') && text != ""
    ensures forall meta: Meta | meta.defaultValues == text || (meta.defaultValues == "" && text == " DEFAULT VALUES") ::
              WritesDefaults(meta, frags, d)
  {
    hide Readable, FragsText;
  }

  lemma DefaultWords(d: Dialect)
    ensures Phrase([Blank, Plain("DEFAULT"), Blank, Plain("VALUES")], " DEFAULT VALUES", Blank, Plain("VALUES"), d)
  {
    Words(d);
    WordPhrase("DEFAULT", d);
    OnePhrase(Plain("VALUES"), d);
    hide Phrase, ValidFrag;
    DefaultTexts();
    TwoPhrases([Blank, Plain("DEFAULT"), Blank], " DEFAULT ", Blank, Blank, [Plain("VALUES")], "VALUES",
               Plain("VALUES"), Plain("VALUES"), d);
    assert [Blank, Plain("DEFAULT"), Blank] + [Plain("VALUES")] == [Blank, Plain("DEFAULT"), Blank, Plain("VALUES")];
  }

  lemma DefaultTexts()
    ensures " " + "DEFAULT" + " " == " DEFAULT " && " DEFAULT " + "VALUES" == " DEFAULT VALUES"
  {
  }

  lemma EmptyLists(d: Dialect)
    ensures Phrase([Blank, Sign('('), Sign(')'), Blank, Plain("VALUES"), Blank, Sign('('), Sign(')')], " () VALUES ()",
                   Blank, Sign(')'), d)
  {
    SignPhrases(d);
    hide Phrase, ValidFrag;
    var a, b, c := [Blank, Sign('(')], [Sign(')'), Blank, Plain("VALUES"), Blank, Sign('(')], [Sign(')')];
    TwoPhrases(a, " (", Blank, Sign('('), b, ") VALUES (", Sign(')'), Sign('('), d);
    TwoPhrases(a + b, " (" + ") VALUES (", Blank, Sign('('), c, ")", Sign(')'), Sign(')'), d);
    assert a + b + c == [Blank, Sign('('), Sign(')'), Blank, Plain("VALUES"), Blank, Sign('('), Sign(')')];
    assert " (" + ") VALUES (" + ")" == " () VALUES ()";
  }

  lemma DefaultList(column: Frag, d: Dialect)
    requires IsName(column, d)
    ensures Phrase([Blank, Sign('('), column, Sign(')'), Blank, Plain("VALUES"), Blank,
                    Sign('('), Plain("DEFAULT"), Sign(')')],
                   " (" + FragText(column) + ") VALUES (DEFAULT)", Blank, Sign(')'), d)
  {
    SignPhrases(d);
    Words(d);
    OnePhrase(column, d);
    OnePhrase(Plain("DEFAULT"), d);
    assert FragText(Plain("DEFAULT")) == "DEFAULT";
    assert MayFollow(Sign('('), column) && MayFollow(column, Sign(')'));
    hide Phrase, ValidFrag, FragText, MayFollow;
    assert MayFollow(Sign('('), Plain("DEFAULT")) && MayFollow(Plain("DEFAULT"), Sign(')')) by {
      WordsInParentheses();
    }
    var a, b, c := [Blank, Sign('(')], [Sign(')'), Blank, Plain("VALUES"), Blank, Sign('(')], [Sign(')')];
    TwoPhrases(a, " (", Blank, Sign('('), [column], FragText(column), column, column, d);
    TwoPhrases(a + [column], " (" + FragText(column), Blank, column, b, ") VALUES (", Sign(')'), Sign('('), d);
    TwoPhrases([Plain("DEFAULT")], "DEFAULT", Plain("DEFAULT"), Plain("DEFAULT"), c, ")", Sign(')'), Sign(')'), d);
    TwoPhrases(a + [column] + b, " (" + FragText(column) + ") VALUES (", Blank, Sign('('), [Plain("DEFAULT")] + c,
               "DEFAULT" + ")", Plain("DEFAULT"), Sign(')'), d);
    DefaultListParts(column, FragText(column));
  }

  lemma DefaultListParts(column: Frag, name: string)
    ensures [Blank, Sign('(')] + [column] + [Sign(')'), Blank, Plain("VALUES"), Blank, Sign('(')]
            + ([Plain("DEFAULT")] + [Sign(')')])
            == [Blank, Sign('('), column, Sign(')'), Blank, Plain("VALUES"), Blank,
                Sign('('), Plain("DEFAULT"), Sign(')')]
    ensures " (" + name + ") VALUES (" + ("DEFAULT" + ")") == " (" + name + ") VALUES (DEFAULT)"
  {
    assert ") VALUES (" + ("DEFAULT" + ")") == ") VALUES (DEFAULT)";
    Associates(" (" + name, ") VALUES (", "DEFAULT" + ")");
  }

  lemma WordsInParentheses()
    ensures MayFollow(Sign('('), Plain("DEFAULT")) && MayFollow(Plain("DEFAULT"), Sign(')'))
  {
  }
}
