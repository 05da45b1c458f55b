/**
  A canonical renderer: which scripts can be written at all, and that they are read back.
 */
module Rendering {
  import opened Text
  import opened RowLog
  import opened Syntax
  import opened Writing
  import opened Layout
  import opened Parser
  import opened Understood
  import opened ParserProofs

  // ---- The canonical text ----

  predicate AllNoNul(ws: seq<string>) {
    forall k :: 0 <= k < |ws| ==> NoNul(ws[k])
  }

  predicate WhereRenders(w: Where) {
    w.Where? ==> PlainName(w.column) && NoNul(w.value)
  }

  /** Statements that have a text: proper names, lists that are not empty, values without zero characters. */
  predicate Renders(x: Statement) {
    match x
    case InsertInto(target, columns, values) =>
      NameFits(target) && NamesFit(columns) && values != [] && AllNoNul(values)
    case SelectFrom(source, q) =>
      && NameFits(source) && WhereRenders(q.where_)
      && if q.all then q.columns == [] else NamesFit(q.columns)
  }

  predicate AllRender(xs: seq<Statement>) {
    forall k :: 0 <= k < |xs| ==> Renders(xs[k])
  }

  function OpText(op: Op): string {
    match op
    case Equal => "="
    case Greater => ">"
    case GreaterEqual => ">="
    case Less => "<"
    case LessEqual => "<="
  }

  function Quotes(ws: seq<string>): seq<Word> {
    seq(|ws|, i requires 0 <= i < |ws| => InQuotes(ws[i]))
  }

  function CanonicalClause(w: Where): WrittenWhere {
    match w
    case NoWhere => NoClause
    case Where(column, value, op) => Clause("WHERE", column, OpText(op), InQuotes(value))
  }

  /** Keywords in capitals, every value in quotes. */
  function Canonical(x: Statement): WrittenStatement {
    match x
    case InsertInto(target, columns, values) =>
      WrittenInsert("INSERT", "INTO", target, columns, "VALUES", Quotes(values))
    case SelectFrom(source, q) =>
      WrittenSelect("SELECT", q.all, q.columns, "FROM", source, CanonicalClause(q.where_))
  }

  lemma {:induction false} QuotesAreTexts(ws: seq<string>)
    ensures Texts(Quotes(ws)) == ws
  {
    if ws != [] {
      assert Quotes(ws)[1..] == Quotes(ws[1..]);
      QuotesAreTexts(ws[1..]);
    }
  }

  lemma CanonicalMeans(x: Statement)
    requires Renders(x)
    ensures StatementFits(Canonical(x)) && Meaning(Canonical(x)) == x
  {
    if x.InsertInto? {
      QuotesAreTexts(x.values);
    }
  }

  /** A semicolon between statements. */
  function Canonicals(xs: seq<Statement>, semicolons: nat): seq<Sentence> {
    if xs == [] then [] else [Sentence(semicolons, Canonical(xs[0]))] + Canonicals(xs[1..], 1)
  }

  lemma {:induction false} CanonicalsMean(xs: seq<Statement>, semicolons: nat)
    requires AllRender(xs)
    ensures SentencesFit(Canonicals(xs, semicolons)) && Meanings(Canonicals(xs, semicolons)) == xs
    decreases |xs|
  {
    if xs != [] {
      CanonicalMeans(xs[0]);
      CanonicalsMean(xs[1..], 1);
    }
  }

  /** One blank behind every word. */
  function Spaced(words: seq<Word>): string {
    if words == [] then "" else WordText(words[0]) + (" " + Spaced(words[1..]))
  }

  /** The canonical text of a script. */
  function Render(xs: seq<Statement>): string
    requires AllRender(xs)
  {
    CanonicalsMean(xs, 0);
    Spaced(ScriptWords(Canonicals(xs, 0), 1))
  }

  lemma {:induction false} SpacedIsLaid(words: seq<Word>) returns (gaps: seq<Gap>)
    requires AllFit(words)
    ensures |gaps| == |words| + 1 && LaidWell(words, gaps, "") && Laid(words, gaps, "") == Spaced(words)
    decreases |words|
  {
    if words == [] {
      gaps := [[]];
    } else {
      gaps := SpacedIsLaid(words[1..]);
      gaps := MoreFiller(Space(' '), words[1..], gaps, "");
      var all;
      all, gaps := MoreWords(words[0], words[1..], gaps, "");
      assert all == words;
    }
  }

  lemma NamesAreFit(ws: seq<string>)
    requires NamesFit(ws)
    ensures AllFit(Names(ws))
  {
    NamesAreTexts(ws);
    forall i | 0 <= i < |ws| ensures WordFits(Names(ws)[i]) {
      assert ItemFits(Names(ws)[i], false);
    }
  }

  lemma LiteralsAreFit(ls: seq<Word>)
    requires LiteralsFit(ls)
    ensures AllFit(ls)
  {
    forall i | 0 <= i < |ls| ensures WordFits(ls[i]) {
      assert LiteralFits(ls[i]);
    }
  }

  lemma FitConcat(a: seq<Word>, b: seq<Word>)
    requires AllFit(a) && AllFit(b)
    ensures AllFit(a + b)
  {
  }

  lemma {:induction false} ListWordsFit(items: seq<Word>)
    requires items != [] && AllFit(items)
    ensures AllFit(ListWords(items)) && AllFit(InParentheses(items))
  {
    if |items| > 1 {
      ListWordsFit(items[1..]);
      FitConcat([items[0], Bare(",")], ListWords(items[1..]));
    }
    FitConcat(ListWords(items), [Bare(")")]);
    FitConcat([Bare("(")], ListWords(items) + [Bare(")")]);
  }

  lemma FiveFit(a: seq<Word>, b: seq<Word>, c: seq<Word>, d: seq<Word>, e: seq<Word>)
    requires AllFit(a) && AllFit(b) && AllFit(c) && AllFit(d) && AllFit(e)
    ensures AllFit(a + (b + (c + (d + e))))
  {
    FitConcat(d, e);
    FitConcat(c, d + e);
    FitConcat(b, c + (d + e));
    FitConcat(a, b + (c + (d + e)));
  }

  lemma ClauseWordsFit(c: WrittenWhere)
    requires ClauseFits(c)
    ensures AllFit(ClauseWords(c))
  {
  }

  lemma StatementWordsFit(x: WrittenStatement)
    requires StatementFits(x)
    ensures AllFit(StatementWords(x))
  {
    match x
    case WrittenInsert(insert, into, target, columns, values, literals) =>
      NamesAreFit(columns);
      LiteralsAreFit(literals);
      ListWordsFit(Names(columns));
      ListWordsFit(literals);
      FiveFit([Bare(insert), Bare(into)], NameWords(target), InParentheses(Names(columns)), [Bare(values)],
              InParentheses(literals));
    case WrittenSelect(select, star, columns, from, source, clause) =>
      if !star {
        NamesAreFit(columns);
        ListWordsFit(Names(columns));
      }
      ClauseWordsFit(clause);
      FiveFit([Bare(select)], ColumnWords(star, columns), [Bare(from)], NameWords(source), ClauseWords(clause));
  }

  lemma {:induction false} SemicolonsFit(n: nat)
    ensures AllFit(Semicolons(n))
  {
    if n > 0 {
      SemicolonsFit(n - 1);
    }
  }

  lemma {:induction false} ScriptWordsFit(es: seq<Sentence>, last: nat)
    requires SentencesFit(es)
    ensures AllFit(ScriptWords(es, last))
  {
    if es == [] {
      SemicolonsFit(last);
    } else {
      StatementWordsFit(es[0].statement);
      ScriptWordsFit(es[1..], last);
      SemicolonsFit(es[0].semicolons);
      FitConcat(StatementWords(es[0].statement), ScriptWords(es[1..], last));
      FitConcat(Semicolons(es[0].semicolons), StatementWords(es[0].statement) + ScriptWords(es[1..], last));
    }
  }

  /** The canonical text says the script. */
  lemma RenderSays(xs: seq<Statement>)
    requires AllRender(xs)
    ensures Says(Render(xs), xs)
  {
    var es := Canonicals(xs, 0);
    CanonicalsMean(xs, 0);
    var words := ScriptWords(es, 1);
    ScriptWordsFit(es, 1);
    var gaps := SpacedIsLaid(words);
    var text := Laid(words, gaps, "");
    assert IsMark("") && "" + text == text;
    assert MadeOf(Render(xs), words);
  }

  lemma {:induction false} LiteralsHaveNoNul(ls: seq<Word>)
    requires forall k :: 0 <= k < |ls| ==> LiteralFits(ls[k])
    ensures AllNoNul(Texts(ls))
  {
    if ls != [] {
      LiteralHasNoNul(ls[0]);
      LiteralsHaveNoNul(ls[1..]);
    }
  }

  lemma LiteralHasNoNul(l: Word)
    requires LiteralFits(l)
    ensures NoNul(l.text)
  {
    if l.Bare? {
      var w := l.text;
      assert forall k :: 1 <= k < |w| ==> w[k] == w[1..][k - 1];
      assert PlainName(w) ==> forall k :: 0 <= k < |w| ==> NameChar(w[k]);
    }
  }

  lemma SaidRenders(x: WrittenStatement)
    requires StatementFits(x)
    ensures Renders(Meaning(x))
  {
    match x
    case WrittenInsert(_, _, _, _, _, literals) => LiteralsHaveNoNul(literals);
    case WrittenSelect(_, _, _, _, _, clause) =>
      if clause.Clause? {
        LiteralHasNoNul(clause.value);
      }
  }

  lemma {:induction false} MeaningsRender(es: seq<Sentence>)
    requires SentencesFit(es)
    ensures AllRender(Meanings(es))
  {
    if es != [] {
      SaidRenders(es[0].statement);
      MeaningsRender(es[1..]);
    }
  }

  lemma ParsedRenders(s: string, xs: seq<Statement>)
    requires Parse(s) == Some(xs)
    ensures AllRender(xs)
  {
    ParsedIsSaid(s, xs);
    var es: seq<Sentence>, last: nat :| SentencesFit(es) && MadeOf(s, ScriptWords(es, last)) && xs == Meanings(es);
    MeaningsRender(es);
  }

  /** Rendering a script and parsing the text gives the script back. */
  lemma ParseOfRender(xs: seq<Statement>)
    requires AllRender(xs)
    ensures Parse(Render(xs)) == Some(xs)
  {
    RenderSays(xs);
    ParsedIffSaid(Render(xs), xs);
  }

  /**
    The scripts that some text parses to are exactly those that can be rendered: every
    parsed script has a canonical text, which parses to the same script.
   */
  lemma ParsedIffRendered(xs: seq<Statement>)
    ensures (exists s :: Parse(s) == Some(xs)) <==> AllRender(xs)
    ensures AllRender(xs) ==> Parse(Render(xs)) == Some(xs)
  {
    if s :| Parse(s) == Some(xs) {
      ParsedRenders(s, xs);
    }
    if AllRender(xs) {
      ParseOfRender(xs);
    }
  }
}
