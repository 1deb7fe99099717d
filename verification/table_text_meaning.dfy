/** The text of an update tells which columns it sets, so that different updates of a table have different texts. */
module TableTextMeanings {
  import opened TextLines
  import opened SqlLexer
  import opened SqlTexts
  import opened TableEdits
  import opened TableTexts

  /** The equations behind the first one. */
  function MoreFrags(names: seq<Frag>, first: nat, joiner: seq<Frag>, placeholder: Placeholder): seq<Frag> {
    if names == [] then []
    else joiner + EquationOf(names[0], first + 1, placeholder) + MoreFrags(names[1..], first + 1, joiner, placeholder)
  }

  lemma {:induction false} MoreOfLast(names: seq<Frag>, first: nat, joiner: seq<Frag>, placeholder: Placeholder)
    requires names != []
    ensures var n := |names| - 1;
            MoreFrags(names, first, joiner, placeholder)
            == MoreFrags(names[..n], first, joiner, placeholder)
               + (joiner + EquationOf(names[n], first + n + 1, placeholder))
  {
    hide EquationOf;
    var n := |names| - 1;
    if n > 0 {
      MoreOfLast(names[1..], first + 1, joiner, placeholder);
      assert names[1..][..n - 1] == names[..n][1..];
      var front := joiner + EquationOf(names[0], first + 1, placeholder);
      Associates(front, MoreFrags(names[..n][1..], first + 1, joiner, placeholder),
                 joiner + EquationOf(names[n], first + n + 1, placeholder));
    } else {
      assert names[1..] == [];
    }
  }

  lemma {:induction false} FirstAndMore(names: seq<Frag>, first: nat, joiner: seq<Frag>, placeholder: Placeholder)
    requires names != []
    ensures EquationFrags(names, first, joiner, placeholder)
            == EquationOf(names[0], first + 1, placeholder) + MoreFrags(names[1..], first + 1, joiner, placeholder)
  {
    hide EquationOf;
    var n := |names| - 1;
    if n == 0 {
      assert names[1..] == [] && names[..0] == [];
    } else {
      FirstAndMore(names[..n], first, joiner, placeholder);
      assert names[..n][1..] == names[1..][..n - 1];
      MoreOfLast(names[1..], first + 1, joiner, placeholder);
      var more := MoreFrags(names[1..][..n - 1], first + 1, joiner, placeholder);
      var last := EquationOf(names[n], first + n + 1, placeholder);
      Associates(EquationOf(names[0], first + 1, placeholder), more, joiner + last);
      Associates(EquationOf(names[0], first + 1, placeholder) + more, joiner, last);
    }
  }

  predicate SameNames(a: seq<Frag>, b: seq<Frag>) {
    |a| == |b| && forall i | 0 <= i < |a| :: LexicalOf(a[i]) == LexicalOf(b[i])
  }

  /** One equation: a name, an equals sign and a placeholder, which all have a fixed number of tokens. */
  lemma EquationLexicals(name: Frag, n: nat, placeholder: Placeholder)
    requires name.Plain? || name.Named?
    ensures Lexicals(EquationOf(name, n, placeholder))
            == LexicalOf(name) + ([(Symbol, "=")] + Lexicals(HoleFrags(placeholder, n)))
    ensures |LexicalOf(name)| == 1
  {
    hide HoleFrags;
    var four := [name, Blank, Sign('='), Blank];
    LexicalsOfConcat(four, HoleFrags(placeholder, n));
    assert four[1..] == [Blank, Sign('='), Blank] && four[1..][1..] == [Sign('='), Blank];
    assert four[1..][1..][1..] == [Blank] && [Blank][1..] == [];
    assert Lexicals([Sign('='), Blank]) == [(Symbol, "=")];
    assert Lexicals(four) == LexicalOf(name) + [(Symbol, "=")];
    hide Lexicals, LexicalOf;
    Associates(LexicalOf(name), [(Symbol, "=")], Lexicals(HoleFrags(placeholder, n)));
    OneLexical(name);
  }

  lemma OneLexical(name: Frag)
    requires name.Plain? || name.Named?
    ensures |LexicalOf(name)| == 1
  {
  }

  const WHERE: seq<Lexical> := [(Word, "WHERE")]

  lemma HeadTail<T>(a: T, s: seq<T>, b: T, t: seq<T>)
    requires [a] + s == [b] + t
    ensures a == b && s == t
  {
    assert ([a] + s)[0] == ([b] + t)[0] && ([a] + s)[1..] == s && ([b] + t)[1..] == t;
  }

  lemma SameFront<T>(a: seq<T>, s: seq<T>, t: seq<T>)
    requires a + s == a + t
    ensures s == t
  {
    assert (a + s)[|a|..] == s && (a + t)[|a|..] == t;
  }

  lemma SameEquation(a: Frag, b: Frag, n: nat, placeholder: Placeholder, x: seq<Lexical>, y: seq<Lexical>)
    requires (a.Plain? || a.Named?) && (b.Plain? || b.Named?)
    requires Lexicals(EquationOf(a, n, placeholder)) + x == Lexicals(EquationOf(b, n, placeholder)) + y
    ensures LexicalOf(a) == LexicalOf(b) && x == y
  {
    EquationLexicals(a, n, placeholder);
    EquationLexicals(b, n, placeholder);
    hide Lexicals;
    var rest := [(Symbol, "=")] + Lexicals(HoleFrags(placeholder, n));
    Associates(LexicalOf(a), rest, x);
    Associates(LexicalOf(b), rest, y);
    assert LexicalOf(a) == [LexicalOf(a)[0]] && LexicalOf(b) == [LexicalOf(b)[0]];
    HeadTail(LexicalOf(a)[0], rest + x, LexicalOf(b)[0], rest + y);
    SameFront(rest, x, y);
  }

  lemma MoreLexicals(names: seq<Frag>, first: nat, placeholder: Placeholder)
    requires names != []
    ensures Lexicals(MoreFrags(names, first, COMMA, placeholder))
            == [(Symbol, ",")] + (Lexicals(EquationOf(names[0], first + 1, placeholder))
                                  + Lexicals(MoreFrags(names[1..], first + 1, COMMA, placeholder)))
  {
    hide EquationOf;
    var e, more := EquationOf(names[0], first + 1, placeholder), MoreFrags(names[1..], first + 1, COMMA, placeholder);
    LexicalsOfConcat(COMMA + e, more);
    LexicalsOfConcat(COMMA, e);
    CommaLexical();
    hide Lexicals;
    Associates(Lexicals(COMMA), Lexicals(e), Lexicals(more));
  }

  lemma CommaLexical()
    ensures Lexicals(COMMA) == [(Symbol, ",")]
  {
    assert COMMA[1..] == [Blank] && [Blank][1..] == [];
  }

  lemma {:induction false} SameMore(a: seq<Frag>, b: seq<Frag>, first: nat, placeholder: Placeholder, x: seq<Lexical>,
                                    y: seq<Lexical>)
    requires forall f | f in a + b :: f.Plain? || f.Named?
    requires Lexicals(MoreFrags(a, first, COMMA, placeholder)) + (WHERE + x)
          == Lexicals(MoreFrags(b, first, COMMA, placeholder)) + (WHERE + y)
    ensures SameNames(a, b)
    decreases |a|
  {
    hide EquationOf, Lexicals, MoreFrags, LexicalOf;
    if a == [] || b == [] {
      NoMore(a, b, first, placeholder, x, y);
    } else {
      MoreLexicals(a, first, placeholder);
      MoreLexicals(b, first, placeholder);
      var ea, eb := Lexicals(EquationOf(a[0], first + 1, placeholder)),
                    Lexicals(EquationOf(b[0], first + 1, placeholder));
      var ma := Lexicals(MoreFrags(a[1..], first + 1, COMMA, placeholder));
      var mb := Lexicals(MoreFrags(b[1..], first + 1, COMMA, placeholder));
      Regroup((Symbol, ","), ea, ma, WHERE + x);
      Regroup((Symbol, ","), eb, mb, WHERE + y);
      HeadTail((Symbol, ","), ea + (ma + (WHERE + x)), (Symbol, ","), eb + (mb + (WHERE + y)));
      assert a[0] in a + b && b[0] in a + b;
      SameEquation(a[0], b[0], first + 1, placeholder, ma + (WHERE + x), mb + (WHERE + y));
      assert forall f | f in a[1..] + b[1..] :: f in a + b;
      SameMore(a[1..], b[1..], first + 1, placeholder, x, y);
      OneMoreSame(a, b);
    }
  }

  lemma OneMoreSame(a: seq<Frag>, b: seq<Frag>)
    requires a != [] && b != [] && LexicalOf(a[0]) == LexicalOf(b[0]) && SameNames(a[1..], b[1..])
    ensures SameNames(a, b)
  {
    hide LexicalOf;
    assert forall i | 1 <= i < |a| :: a[i] == a[1..][i - 1] && b[i] == b[1..][i - 1];
  }

  lemma Regroup<T>(c: T, e: seq<T>, m: seq<T>, z: seq<T>)
    ensures [c] + (e + m) + z == [c] + (e + (m + z))
  {
  }

  lemma MoreStarts(a: seq<Frag>, first: nat, placeholder: Placeholder, x: seq<Lexical>)
    ensures (Lexicals(MoreFrags(a, first, COMMA, placeholder)) + (WHERE + x))[0]
            == if a == [] then (Word, "WHERE") else (Symbol, ",")
  {
    hide EquationOf;
    if a != [] {
      MoreLexicals(a, first, placeholder);
    }
  }

  lemma NoMore(a: seq<Frag>, b: seq<Frag>, first: nat, placeholder: Placeholder, x: seq<Lexical>, y: seq<Lexical>)
    requires a == [] || b == []
    requires Lexicals(MoreFrags(a, first, COMMA, placeholder)) + (WHERE + x)
          == Lexicals(MoreFrags(b, first, COMMA, placeholder)) + (WHERE + y)
    ensures a == b == []
  {
    hide Lexicals, MoreFrags;
    MoreStarts(a, first, placeholder, x);
    MoreStarts(b, first, placeholder, y);
  }

  // ----- whole statements -----

  /** All quoted names are in the same quotes. */
  predicate OneQuote(frags: seq<Frag>, quote: char) {
    forall f | f in frags && f.Named? :: f.quote == quote
  }

  lemma SameFrag(f: Frag, g: Frag)
    requires (f.Plain? || f.Named?) && (g.Plain? || g.Named?) && LexicalOf(f) == LexicalOf(g)
    requires f.Named? && g.Named? ==> f.quote == g.quote
    ensures f == g
  {
    assert LexicalOf(f)[0] == LexicalOf(g)[0];
  }

  lemma SameFrags(a: seq<Frag>, b: seq<Frag>, quote: char)
    requires SameNames(a, b) && OneQuote(a, quote) && OneQuote(b, quote)
    requires forall f | f in a + b :: f.Plain? || f.Named?
    ensures a == b
  {
    hide LexicalOf;
    forall i | 0 <= i < |a|
      ensures a[i] == b[i]
    {
      assert a[i] in a + b && b[i] in a + b;
      SameFrag(a[i], b[i]);
    }
  }

  lemma ReadsOnce(s: string, d: Dialect, x: seq<Lexical>, y: seq<Lexical>)
    requires ReadsAs(s, 0, d, x) && ReadsAs(s, 0, d, y)
    ensures x == y
  {
    hide Tokenize;
    forall i | 0 <= i < |x|
      ensures x[i] == y[i]
    {
      assert x[i] == (x[i].0, x[i].1) && y[i] == (y[i].0, y[i].1);
    }
  }

  /** The tokens of an update behind its head: the first equation, the others, and the condition. */
  lemma UpdateLexicals(schema: Frag, table: Frag, names: seq<Frag>, keys: seq<Frag>, placeholder: Placeholder)
    requires names != []
    ensures var head := [Plain("UPDATE"), Blank] + TableFrags(schema, table) + [Blank, Plain("SET"), Blank];
            Lexicals(UpdateFrags(schema, table, names, keys, placeholder))
            == Lexicals(head)
               + (Lexicals(EquationOf(names[0], 1, placeholder))
                  + (Lexicals(MoreFrags(names[1..], 1, COMMA, placeholder))
                     + (WHERE + Lexicals(EquationFrags(keys, |names|, AND, placeholder)))))
  {
    hide EquationOf, MoreFrags, TableFrags, EquationFrags;
    var head := [Plain("UPDATE"), Blank] + TableFrags(schema, table) + [Blank, Plain("SET"), Blank];
    var first, more := EquationOf(names[0], 1, placeholder), MoreFrags(names[1..], 1, COMMA, placeholder);
    var behind, conditions := [Blank, Plain("WHERE"), Blank], EquationFrags(keys, |names|, AND, placeholder);
    FirstAndMore(names, 0, COMMA, placeholder);
    LexicalsOfConcat(head + (first + more) + behind, conditions);
    LexicalsOfConcat(head + (first + more), behind);
    LexicalsOfConcat(head, first + more);
    LexicalsOfConcat(first, more);
    WhereLexical();
    hide Lexicals;
    FiveGrouped(Lexicals(head), Lexicals(first), Lexicals(more), WHERE, Lexicals(conditions));
  }

  lemma WhereLexical()
    ensures Lexicals([Blank, Plain("WHERE"), Blank]) == WHERE
  {
    assert [Blank, Plain("WHERE"), Blank][1..] == [Plain("WHERE"), Blank] && [Plain("WHERE"), Blank][1..] == [Blank];
    assert [Blank][1..] == [];
  }

  lemma FiveGrouped<T>(a: seq<T>, b: seq<T>, c: seq<T>, e: seq<T>, f: seq<T>)
    ensures a + (b + c) + e + f == a + (b + (c + (e + f)))
  {
  }

  /** Two updates of one table with the same text set the same columns, in the same order. */
  lemma TextDeterminesColumns(meta: Meta, a: RowChange, b: RowChange, schema: Frag, table: Frag,
                              names: map<Column, Frag>, defaults: seq<Frag>, quote: char, d: Dialect)
    requires WellFormed(meta) && Written(meta, schema, table, names, d) && WritesDefaults(meta, defaults, d)
    requires forall c | c in names && names[c].Named? :: names[c].quote == quote
    requires Built(meta, Updating, a).Ok? && Built(meta, Updating, b).Ok?
    requires Text(meta, Pieces(Built(meta, Updating, a).value.0))
             == Text(meta, Pieces(Built(meta, Updating, b).value.0))
    ensures |a.values| == |b.values| && forall i | 0 <= i < |a.values| :: a.values[i].column == b.values[i].column
    ensures Built(meta, Updating, a).value.0 == Built(meta, Updating, b).value.0
  {
    var text := Text(meta, Pieces(Built(meta, Updating, a).value.0));
    StatementIsRead(meta, Updating, a, schema, table, names, defaults, d);
    StatementIsRead(meta, Updating, b, schema, table, names, defaults, d);
    BuiltHasValues(meta, a);
    BuiltHasValues(meta, b);
    hide Built, Pieces, Text, WritesDefaults, Lexicals, ReadsAs, ValidFrag, UpdateFrags, Readable;
    var x, y := NamesOf(names, a.values), NamesOf(names, b.values);
    var keys := KeyNames(meta, names);
    ReadsOnce(text, d, Lexicals(UpdateFrags(schema, table, x, keys, meta.placeholder)),
              Lexicals(UpdateFrags(schema, table, y, keys, meta.placeholder)));
    NamesAreNames(names, a.values, meta, schema, table, quote, d);
    NamesAreNames(names, b.values, meta, schema, table, quote, d);
    SameUpdate(schema, table, x, y, keys, meta.placeholder);
    SameFrags(x, y, quote);
    SameColumns(meta, a, b, schema, table, names, d);
  }

  lemma BuiltHasValues(meta: Meta, change: RowChange)
    requires Built(meta, Updating, change).Ok?
    ensures change.values != [] && ValidValues(meta, change.values)
  {
    ValidValuesHaveNoError(meta, change.values);
  }

  lemma NamesAreNames(names: map<Column, Frag>, values: seq<Cell>, meta: Meta, schema: Frag, table: Frag, quote: char,
                      d: Dialect)
    requires Written(meta, schema, table, names, d)
    requires forall c | c in names && names[c].Named? :: names[c].quote == quote
    requires forall cell | cell in values :: cell.column in names
    ensures OneQuote(NamesOf(names, values), quote) && forall f | f in NamesOf(names, values) :: f.Plain? || f.Named?
  {
    hide FragText, ValidFrag;
  }

  lemma SameUpdate(schema: Frag, table: Frag, a: seq<Frag>, b: seq<Frag>, keys: seq<Frag>, placeholder: Placeholder)
    requires a != [] && b != [] && forall f | f in a || f in b :: f.Plain? || f.Named?
    requires Lexicals(UpdateFrags(schema, table, a, keys, placeholder))
             == Lexicals(UpdateFrags(schema, table, b, keys, placeholder))
    ensures SameNames(a, b)
  {
    UpdateLexicals(schema, table, a, keys, placeholder);
    UpdateLexicals(schema, table, b, keys, placeholder);
    hide Lexicals, EquationOf, MoreFrags, TableFrags, EquationFrags, UpdateFrags, LexicalOf;
    var head := Lexicals([Plain("UPDATE"), Blank] + TableFrags(schema, table) + [Blank, Plain("SET"), Blank]);
    var x, y := Lexicals(EquationFrags(keys, |a|, AND, placeholder)),
                Lexicals(EquationFrags(keys, |b|, AND, placeholder));
    var ma, mb := Lexicals(MoreFrags(a[1..], 1, COMMA, placeholder)) + (WHERE + x),
                  Lexicals(MoreFrags(b[1..], 1, COMMA, placeholder)) + (WHERE + y);
    SameFront(head, Lexicals(EquationOf(a[0], 1, placeholder)) + ma, Lexicals(EquationOf(b[0], 1, placeholder)) + mb);
    assert a[0] in a && b[0] in b;
    SameEquation(a[0], b[0], 1, placeholder, ma, mb);
    assert forall f | f in a[1..] + b[1..] :: f in a || f in b;
    SameMore(a[1..], b[1..], 1, placeholder, x, y);
    OneMoreSame(a, b);
  }

  lemma SameColumns(meta: Meta, a: RowChange, b: RowChange, schema: Frag, table: Frag, names: map<Column, Frag>,
                    d: Dialect)
    requires WellFormed(meta) && Written(meta, schema, table, names, d)
    requires Built(meta, Updating, a).Ok? && Built(meta, Updating, b).Ok?
    requires ValidValues(meta, a.values) && ValidValues(meta, b.values)
    requires NamesOf(names, a.values) == NamesOf(names, b.values)
    ensures |a.values| == |b.values| && forall i | 0 <= i < |a.values| :: a.values[i].column == b.values[i].column
    ensures Built(meta, Updating, a).value.0 == Built(meta, Updating, b).value.0
  {
    hide FragText, ValidFrag, ValidKey, ValuesError;
    assert |NamesOf(names, a.values)| == |a.values| && |NamesOf(names, b.values)| == |b.values|;
    forall i | 0 <= i < |a.values|
      ensures a.values[i].column == b.values[i].column
    {
      assert NamesOf(names, a.values)[i] == NamesOf(names, b.values)[i];
      assert a.values[i] in a.values && b.values[i] in b.values;
    }
    assert Names(meta, a.values) == Names(meta, b.values);
  }
}
