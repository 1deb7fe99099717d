/** Texts put together from words, names, numbers and symbols, and that the tokenizer reads them back. */
module SqlTexts {
  import opened TextLines
  import opened SqlLexer
  import opened SqlLocality
  import opened SqlPartition
  import opened SqlUniqueness
  import opened SqlStatements
  import opened SqlQuoting
  import opened SqlStrings

  /** A piece of a text: a blank, a word as it stands, a quoted name, the digits of a number, or a symbol. */
  datatype Frag = Blank | Plain(word: string) | Named(name: string, quote: char) | Digits(n: nat) | Sign(c: char)

  function FragText(f: Frag): string {
    match f
    case Blank => " "
    case Plain(word) => word
    case Named(name, quote) => QuoteIdentifier(name, quote)
    case Digits(n) => Dec(n)
    case Sign(c) => [c]
  }

  function FragsText(frags: seq<Frag>): string {
    if frags == [] then "" else FragText(frags[0]) + FragsText(frags[1..])
  }

  // ----- what the pieces are read as -----

  type Lexical = (TokenKind, string)

  function LexicalOf(f: Frag): seq<Lexical> {
    match f
    case Blank => []
    case Plain(word) => [(Word, word)]
    case Named(name, quote) => [(Quoted, name)]
    case Digits(n) => [(Number, Dec(n))]
    case Sign(c) => [(Symbol, [c])]
  }

  function Lexicals(frags: seq<Frag>): seq<Lexical> {
    if frags == [] then [] else LexicalOf(frags[0]) + Lexicals(frags[1..])
  }

  /** The tokens from `p` on have these kinds and texts. */
  predicate ReadsAs(s: string, p: nat, d: Dialect, lexicals: seq<Lexical>)
    requires p <= |s|
  {
    && Tokenize(s, p, d).Tokens? && |Tokenize(s, p, d).tokens| == |lexicals|
    && forall i | 0 <= i < |lexicals| ::
         Tokenize(s, p, d).tokens[i].kind == lexicals[i].0 && Tokenize(s, p, d).tokens[i].text == lexicals[i].1
  }

  // ----- which pieces there are, and which may stand next to each other -----

  predicate ValidFrag(f: Frag, d: Dialect) {
    match f
    case Plain(word) => word != "" && LetterByte(word[0]) && forall i | 0 <= i < |word| :: NameByte(word[i])
    case Named(_, quote) => quote == '"' || (quote == '`' && d.bracketIdentifier)
    case Sign(c) => c == '=' || c == ',' || c == '(' || c == ')' || c == '.' || c == '$' || c == ':' || c == '?'
    case _ => true
  }

  /** Words, names and numbers come to an end, and a dot is in front of a name. */
  predicate MayFollow(f: Frag, g: Frag) {
    match f
    case Sign(c) => c == '.' ==> g.Plain? || g.Named?
    case Blank => true
    case Digits(_) => g == Blank || (g.Sign? && (g.c == ',' || g.c == ')'))
    case _ => g == Blank || (g.Sign? && (g.c == ',' || g.c == ')' || g.c == '.' || g.c == '='))
  }

  predicate Readable(frags: seq<Frag>, d: Dialect) {
    && (forall i | 0 <= i < |frags| :: ValidFrag(frags[i], d))
    && (forall i | 0 <= i < |frags| - 1 :: MayFollow(frags[i], frags[i + 1]))
  }

  lemma Associates<T>(a: seq<T>, b: seq<T>, c: seq<T>)
    ensures a + (b + c) == a + b + c
  {
  }

  lemma {:induction false} FragsTextOfConcat(a: seq<Frag>, b: seq<Frag>)
    ensures FragsText(a + b) == FragsText(a) + FragsText(b)
  {
    if a == [] {
      assert a + b == b;
    } else {
      FragsTextOfConcat(a[1..], b);
      assert (a + b)[0] == a[0] && (a + b)[1..] == a[1..] + b;
      hide FragText;
      Associates(FragText(a[0]), FragsText(a[1..]), FragsText(b));
    }
  }

  lemma {:induction false} LexicalsOfConcat(a: seq<Frag>, b: seq<Frag>)
    ensures Lexicals(a + b) == Lexicals(a) + Lexicals(b)
  {
    if a == [] {
      assert a + b == b;
    } else {
      LexicalsOfConcat(a[1..], b);
      assert (a + b)[0] == a[0] && (a + b)[1..] == a[1..] + b;
      hide LexicalOf;
      Associates(LexicalOf(a[0]), Lexicals(a[1..]), Lexicals(b));
    }
  }

  lemma ReadableConcat(a: seq<Frag>, b: seq<Frag>, d: Dialect)
    requires Readable(a, d) && Readable(b, d) && (a != [] && b != [] ==> MayFollow(a[|a| - 1], b[0]))
    ensures Readable(a + b, d)
  {
    hide ValidFrag, MayFollow;
    var all := a + b;
    forall i | 0 <= i < |all| - 1
      ensures MayFollow(all[i], all[i + 1])
    {
      if i >= |a| {
        assert all[i] == b[i - |a|] && all[i + 1] == b[i - |a| + 1];
      }
    }
  }

  // ----- one piece in its place -----

  /** `text` stands from `p` to the end of the script. */
  predicate Rest(s: string, p: nat, text: string) {
    p <= |s| && s[p..] == text
  }

  lemma RestOfTwo(s: string, p: nat, a: string, b: string)
    requires Rest(s, p, a + b)
    ensures p + |a| <= |s| && s[p..p + |a|] == a && Rest(s, p + |a|, b)
    ensures p + |a| < |s| ==> b != "" && s[p + |a|] == b[0]
    ensures forall i | 0 <= i < |a| :: s[p + i] == a[i]
  {
    var all := s[p..];
    assert all[..|a|] == a && all[|a|..] == b;
    forall i | 0 <= i < |a|
      ensures s[p + i] == a[i]
    {
      assert all[i] == (a + b)[i];
    }
  }

  /** A byte that no word, number or quote goes on with. */
  predicate EndsLexeme(c: char) {
    c == ' ' || c == ',' || c == ')' || c == '.' || c == '='
  }

  /** What follows a word, a name or a number. */
  predicate EndsBefore(f: Frag, rest: string) {
    match f
    case Blank => true
    case Sign(c) => c == '.' ==> rest != "" && !('0' <= rest[0] <= '9')
    case Digits(_) => rest == "" || (EndsLexeme(rest[0]) && rest[0] != '.')
    case _ => rest == "" || EndsLexeme(rest[0])
  }

  function TokenOf(p: nat, f: Frag): Token
    requires !f.Blank?
  {
    var e := p + |FragText(f)|;
    match f
    case Plain(word) => Token(Word, p, e, 0, word, Upper(word))
    case Named(name, quote) => QuotedToken(p, e, name)
    case Digits(n) => Token(Number, p, e, 0, Dec(n), "")
    case Sign(c) => Token(Symbol, p, e, 0, [c], [c])
  }

  lemma LexPlain(s: string, p: nat, f: Frag, rest: string, d: Dialect)
    requires f.Plain? && ValidFrag(f, d) && Rest(s, p, FragText(f) + rest) && EndsBefore(f, rest)
    ensures p < |s| && Lex(s, p, d) == Lexed(TokenOf(p, f))
  {
    hide Lex, Upper, IsUpper, Rest;
    RestOfTwo(s, p, f.word, rest);
    UpperIsUpper(f.word);
    assert forall i | p <= i < p + |f.word| :: s[i] == f.word[i - p];
    NotAnOpenQuote(s, p, f, d);
    FittingIsLexed(s, TokenOf(p, f), d);
  }

  lemma NotAnOpenQuote(s: string, p: nat, f: Frag, d: Dialect)
    requires f.Plain? && ValidFrag(f, d) && p + |f.word| <= |s|
    requires forall i | p <= i < p + |f.word| :: s[i] == f.word[i - p]
    requires p + |f.word| < |s| ==> EndsLexeme(s[p + |f.word|])
    ensures !QAt(s, p, d)
  {
    if |f.word| > 1 {
      assert s[p + 1] == f.word[1] && NameByte(f.word[1]);
    }
  }

  lemma LexNamed(s: string, p: nat, f: Frag, rest: string, d: Dialect)
    requires f.Named? && ValidFrag(f, d) && Rest(s, p, FragText(f) + rest) && EndsBefore(f, rest)
    ensures p < |s| && Lex(s, p, d) == Lexed(TokenOf(p, f))
  {
    hide Lex, QuoteIdentifier, Rest;
    RestOfTwo(s, p, FragText(f), rest);
    LexQuoted(s, p, f.name, f.quote, d);
  }

  lemma LexDigits(s: string, p: nat, f: Frag, rest: string, d: Dialect)
    requires f.Digits? && Rest(s, p, FragText(f) + rest) && EndsBefore(f, rest)
    ensures p < |s| && Lex(s, p, d) == Lexed(TokenOf(p, f))
  {
    hide Lex, Dec, Rest;
    var digits := Dec(f.n);
    RestOfTwo(s, p, digits, rest);
    assert forall i | p <= i < p + |digits| :: s[i] == digits[i - p];
    FittingIsLexed(s, TokenOf(p, f), d);
  }

  lemma LexSign(s: string, p: nat, f: Frag, rest: string, d: Dialect)
    requires f.Sign? && ValidFrag(f, d) && Rest(s, p, FragText(f) + rest) && EndsBefore(f, rest)
    ensures p < |s| && Lex(s, p, d) == Lexed(TokenOf(p, f))
  {
    hide Lex, Rest, SlashAlone;
    RestOfTwo(s, p, [f.c], rest);
    NoSlashNoLine(s, p);
    OneByte(s, p);
    FittingIsLexed(s, TokenOf(p, f), d);
  }

  lemma LexBlank(s: string, p: nat, rest: string, d: Dialect)
    requires Rest(s, p, " " + rest)
    ensures p < |s| && Lex(s, p, d) == Gap(p + 1)
  {
    RestOfTwo(s, p, " ", rest);
    BlankIsLexed(s, p, d);
  }

  lemma LexFrag(s: string, p: nat, f: Frag, rest: string, d: Dialect)
    requires !f.Blank? && ValidFrag(f, d) && Rest(s, p, FragText(f) + rest) && EndsBefore(f, rest)
    ensures p < |s| && Lex(s, p, d) == Lexed(TokenOf(p, f))
  {
    hide Lex, Rest, FragText, ValidFrag, EndsBefore, TokenOf;
    match f
    case Plain(_) => LexPlain(s, p, f, rest, d);
    case Named(_, _) => LexNamed(s, p, f, rest, d);
    case Digits(_) => LexDigits(s, p, f, rest, d);
    case Sign(_) => LexSign(s, p, f, rest, d);
  }

  // ----- a whole text -----

  lemma FirstByte(f: Frag, d: Dialect)
    requires ValidFrag(f, d)
    ensures FragText(f) != ""
    ensures f.Plain? || f.Named? ==> !('0' <= FragText(f)[0] <= '9')
    ensures f == Blank ==> FragText(f)[0] == ' '
    ensures f.Sign? ==> FragText(f)[0] == f.c
  {
  }

  lemma FollowsWell(f: Frag, tail: seq<Frag>, d: Dialect)
    requires Readable([f] + tail, d) && (tail == [] ==> !f.Sign? || f.c != '.')
    ensures ValidFrag(f, d) && Readable(tail, d) && EndsBefore(f, FragsText(tail))
  {
    var all := [f] + tail;
    assert all[0] == f && forall i | 0 <= i < |tail| :: tail[i] == all[i + 1];
    hide ValidFrag, FragText;
    if tail != [] {
      assert MayFollow(all[0], all[1]);
      FirstByte(tail[0], d);
    }
  }

  lemma ReadsFirst(s: string, p: nat, f: Frag, rest: string, d: Dialect, lexicals: seq<Lexical>)
    requires ValidFrag(f, d) && Rest(s, p, FragText(f) + rest) && EndsBefore(f, rest)
    requires p + |FragText(f)| <= |s| && ReadsAs(s, p + |FragText(f)|, d, lexicals)
    ensures ReadsAs(s, p, d, LexicalOf(f) + lexicals)
  {
    hide Lex, Rest, FragText, ValidFrag, EndsBefore, Tokenize;
    var tokens := Tokenize(s, p + |FragText(f)|, d).tokens;
    if f.Blank? {
      assert FragText(f) == " " by { BlankText(); }
      LexBlank(s, p, rest, d);
      SkipGap(s, p, p + 1, d);
      assert [] + lexicals == lexicals;
    } else {
      LexFrag(s, p, f, rest, d);
      TokenReads(p, f);
      ReadToken(s, p, TokenOf(p, f), tokens, d);
      hide TokenOf, LexicalOf;
      OneMoreRead(s, p, TokenOf(p, f), d, lexicals);
    }
  }

  lemma OneMoreRead(s: string, p: nat, t: Token, d: Dialect, lexicals: seq<Lexical>)
    requires p < |s| && t.end <= |s| && ReadsAs(s, t.end, d, lexicals)
    requires Tokenize(s, p, d) == Tokens([t] + Tokenize(s, t.end, d).tokens)
    ensures ReadsAs(s, p, d, [(t.kind, t.text)] + lexicals)
  {
    hide Tokenize;
  }

  lemma BlankText()
    ensures FragText(Blank) == " "
  {
  }

  lemma TokenReads(p: nat, f: Frag)
    requires !f.Blank?
    ensures LexicalOf(f) == [(TokenOf(p, f).kind, TokenOf(p, f).text)]
    ensures TokenOf(p, f).end == p + |FragText(f)|
  {
  }

  lemma {:induction false} ReadsAll(s: string, p: nat, frags: seq<Frag>, d: Dialect)
    requires Readable(frags, d) && (frags != [] ==> !frags[|frags| - 1].Sign? || frags[|frags| - 1].c != '.')
    requires Rest(s, p, FragsText(frags))
    ensures p <= |s| && ReadsAs(s, p, d, Lexicals(frags))
    decreases |frags|
  {
    if frags == [] {
      NothingMore(s, d);
    } else {
      hide Lex, Tokenize, FragText, ValidFrag, MayFollow, EndsBefore, LexicalOf, Readable, Rest, ReadsAs;
      var f, tail := frags[0], frags[1..];
      assert frags == [f] + tail;
      FollowsWell(f, tail, d);
      RestOfTwo(s, p, FragText(f), FragsText(tail));
      ReadsAll(s, p + |FragText(f)|, tail, d);
      ReadsFirst(s, p, f, FragsText(tail), d, Lexicals(tail));
    }
  }

  /** A readable text is read as its pieces, blanks aside. */
  lemma TextIsRead(frags: seq<Frag>, d: Dialect)
    requires Readable(frags, d) && (frags != [] ==> !frags[|frags| - 1].Sign? || frags[|frags| - 1].c != '.')
    ensures ReadsAs(FragsText(frags), 0, d, Lexicals(frags))
  {
    hide FragsText, Lexicals, ReadsAs, Readable;
    assert FragsText(frags)[0..] == FragsText(frags);
    ReadsAll(FragsText(frags), 0, frags, d);
  }
}
