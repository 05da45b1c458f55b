/**
  What is said in the written language is parsed, and to what it means.
 */
module Understood {
  import opened Text
  import opened Sequences
  import opened Syntax
  import opened Numbers
  import opened Lexer
  import opened LexerProofs
  import opened Writing
  import opened Layout
  import opened Parser
  import opened WordKinds

  // ---- What is said is parsed ----

  predicate ItemFits(w: Word, literals: bool) {
    if literals then LiteralFits(w) else w.Bare? && PlainName(w.text)
  }

  predicate ItemsFit(items: seq<Word>, literals: bool) {
    items != [] && forall k :: 0 <= k < |items| ==> ItemFits(items[k], literals)
  }

  lemma ItemKind(w: Word, literals: bool)
    requires WordFits(w)
    ensures var k := TokenOf(w).kind; k == Name || (literals && IsLiteral(k)) <==> ItemFits(w, literals)
  {
    NameKind(w);
    LiteralKind(w);
  }

  lemma CommaKind(symbol: Symbol)
    ensures TokenOf(Bare(SymbolText(symbol))).kind == Sym(symbol)
  {
    SymbolTextFits(symbol);
    SymbolKind(Bare(SymbolText(symbol)), symbol);
  }

  lemma {:induction false} ListBack(words: seq<Word>, i: nat, items: seq<Word>, literals: bool, end: nat)
    requires ItemsFit(items, literals) && Stand(words, i, ListWords(items), end)
    requires KindAt(ReadAs(words), end) != Sym(Comma)
    ensures ListAt(ReadAs(words), i, literals) == Got(Texts(items), end)
    decreases |items|
  {
    StandAt(words, i, ListWords(items), end, 0);
    ItemKind(items[0], literals);
    if |items| == 1 {
      assert Texts(items) == [items[0].text];
    } else {
      CommaKind(Comma);
      StandAt(words, i, ListWords(items), end, 1);
      var mid := StandSplit(words, i, [items[0], Bare(",")], ListWords(items[1..]), end);
      ListBack(words, i + 2, items[1..], literals, end);
    }
  }

  lemma ParenthesizedBack(words: seq<Word>, i: nat, items: seq<Word>, literals: bool, end: nat)
    requires ItemsFit(items, literals) && Stand(words, i, InParentheses(items), end)
    ensures ParenthesizedAt(ReadAs(words), i, literals) == Got(Texts(items), end)
    ensures KindAt(ReadAs(words), i) == Sym(LParen)
  {
    var mid := StandSplit(words, i, [Bare("(")], ListWords(items) + [Bare(")")], end);
    var close := StandSplit(words, mid, ListWords(items), [Bare(")")], end);
    StandOne(words, i, Bare("("), mid);
    StandOne(words, close, Bare(")"), end);
    CommaKind(LParen);
    CommaKind(RParen);
    ListBack(words, mid, items, literals, close);
  }

  lemma PlainNameKind(w: string)
    requires PlainName(w)
    ensures TokenOf(Bare(w)).kind == Name
  {
    NameKind(Bare(w));
  }

  lemma NameBack(words: seq<Word>, i: nat, q: QualifiedName, end: nat)
    requires NameFits(q) && Stand(words, i, NameWords(q), end) && KindAt(ReadAs(words), end) != Sym(Dot)
    ensures NameAt(ReadAs(words), i) == Got(q, end)
  {
    PlainNameKind(q.table);
    StandAt(words, i, NameWords(q), end, 0);
    if q.schema.Some? {
      PlainNameKind(q.schema.value);
      CommaKind(Dot);
      StandAt(words, i, NameWords(q), end, 1);
      StandAt(words, i, NameWords(q), end, 2);
    }
  }

  lemma SaidKeyword(w: string, k: Keyword)
    requires SameLetters(w, KeywordText(k))
    ensures TokenOf(Bare(w)).kind == Kw(k)
  {
    KeywordIsName(w, k);
    KeywordKind(Bare(w), k);
  }

  function OpSymbol(op: Op): Symbol {
    match op
    case Equal => Eq
    case Greater => Gt
    case GreaterEqual => Ge
    case Less => Lt
    case LessEqual => Le
  }

  lemma OpIff(w: Word)
    requires WordFits(w)
    ensures OpOf(TokenOf(w).kind) == if w.Bare? then OpMeaning(w.text) else None
  {
    SymbolKind(w, Eq);
    SymbolKind(w, Gt);
    SymbolKind(w, Ge);
    SymbolKind(w, Lt);
    SymbolKind(w, Le);
  }

  lemma ClauseKinds(word: string, column: string, op: string, value: Word)
    requires ClauseFits(Clause(word, column, op, value))
    ensures TokenOf(Bare(word)).kind == Kw(WhereWord) && TokenOf(Bare(column)).kind == Name
    ensures OpOf(TokenOf(Bare(op)).kind) == OpMeaning(op) && IsLiteral(TokenOf(value).kind)
  {
    SaidKeyword(word, WhereWord);
    PlainNameKind(column);
    OpIff(Bare(op));
    LiteralKind(value);
  }

  lemma FourWords(words: seq<Word>, i: nat, a: Word, b: Word, c: Word, d: Word, end: nat)
    requires Stand(words, i, [a, b, c, d], end)
    ensures end == i + 4 && end <= |words|
    ensures words[i] == a && words[i + 1] == b && words[i + 2] == c && words[i + 3] == d
  {
    var part := words[i..end];
    assert part[0] == words[i] && part[1] == words[i + 1] && part[2] == words[i + 2] && part[3] == words[i + 3];
  }

  lemma WordIs(words: seq<Word>, i: nat, w: Word)
    requires i < |words| && words[i] == w
    ensures KindAt(ReadAs(words), i) == TokenOf(w).kind && LexemeAt(ReadAs(words), i) == w.text
  {
    WordAt(words, i);
  }

  lemma FourAt(words: seq<Word>, i: nat, a: Word, b: Word, c: Word, d: Word, end: nat)
    requires Stand(words, i, [a, b, c, d], end)
    ensures end == i + 4 && end <= |words|
    ensures KindAt(ReadAs(words), i) == TokenOf(a).kind && KindAt(ReadAs(words), i + 1) == TokenOf(b).kind
    ensures KindAt(ReadAs(words), i + 2) == TokenOf(c).kind && KindAt(ReadAs(words), i + 3) == TokenOf(d).kind
    ensures LexemeAt(ReadAs(words), i + 1) == b.text && LexemeAt(ReadAs(words), i + 3) == d.text
  {
    FourWords(words, i, a, b, c, d, end);
    WordIs(words, i, a);
    WordIs(words, i + 1, b);
    WordIs(words, i + 2, c);
    WordIs(words, i + 3, d);
  }

  lemma ClauseBack(words: seq<Word>, i: nat, c: WrittenWhere, end: nat)
    requires ClauseFits(c) && Stand(words, i, ClauseWords(c), end) && KindAt(ReadAs(words), end) != Kw(WhereWord)
    ensures WhereAt(ReadAs(words), i) == Got(ClauseMeaning(c), end)
  {
    match c
    case NoClause =>
    case Clause(word, column, op, value) =>
      ClauseKinds(word, column, op, value);
      FourAt(words, i, Bare(word), Bare(column), Bare(op), value, end);
  }

  lemma {:induction false} NamesAreTexts(ws: seq<string>)
    requires forall k :: 0 <= k < |ws| ==> PlainName(ws[k])
    ensures Texts(Names(ws)) == ws
    ensures forall k :: 0 <= k < |ws| ==> ItemFits(Names(ws)[k], false)
  {
    if ws != [] {
      NamesAreTexts(ws[1..]);
    }
  }

  lemma InsertParts(ts: seq<Token>, i: nat, target: QualifiedName, columns: seq<string>, values: seq<string>, b: nat,
                    c: nat, end: nat)
    requires KindAt(ts, i) == Kw(InsertWord) && KindAt(ts, i + 1) == Kw(IntoWord) && NameAt(ts, i + 2) == Got(target, b)
    requires ParenthesizedAt(ts, b, false) == Got(columns, c) && KindAt(ts, c) == Kw(ValuesWord)
    requires ParenthesizedAt(ts, c + 1, true) == Got(values, end)
    ensures StatementAt(ts, i) == Got(InsertInto(target, columns, values), end)
  {
  }

  lemma InsertStands(words: seq<Word>, i: nat, x: WrittenStatement, end: nat) returns (b: nat, c: nat)
    requires x.WrittenInsert? && StatementFits(x) && Stand(words, i, StatementWords(x), end)
    ensures KindAt(ReadAs(words), i) == Kw(InsertWord) && KindAt(ReadAs(words), i + 1) == Kw(IntoWord)
    ensures Stand(words, i + 2, NameWords(x.target), b) && Stand(words, b, InParentheses(Names(x.columns)), c)
    ensures KindAt(ReadAs(words), c) == Kw(ValuesWord) && Stand(words, c + 1, InParentheses(x.literals), end)
  {
    var head := [Bare(x.insert), Bare(x.into)];
    var a, d;
    a, b, c, d := StandFive(words, i, head, NameWords(x.target), InParentheses(Names(x.columns)),
                            [Bare(x.values)], InParentheses(x.literals), end);
    SaidKeyword(x.insert, InsertWord);
    SaidKeyword(x.into, IntoWord);
    SaidKeyword(x.values, ValuesWord);
    StandAt(words, i, head, a, 0);
    StandAt(words, i, head, a, 1);
    StandOne(words, c, Bare(x.values), d);
  }

  lemma InsertBack(words: seq<Word>, i: nat, x: WrittenStatement, end: nat)
    requires x.WrittenInsert? && StatementFits(x) && Stand(words, i, StatementWords(x), end)
    ensures StatementAt(ReadAs(words), i) == Got(Meaning(x), end) && KindAt(ReadAs(words), i) == Kw(InsertWord)
  {
    var b, c := InsertStands(words, i, x, end);
    NamesAreTexts(x.columns);
    ParenthesizedBack(words, b, Names(x.columns), false, c);
    ParenthesizedBack(words, c + 1, x.literals, true, end);
    NameBack(words, i + 2, x.target, b);
    InsertParts(ReadAs(words), i, x.target, x.columns, Texts(x.literals), b, c, end);
  }

  lemma ColumnsBack(words: seq<Word>, i: nat, star: bool, columns: seq<string>, end: nat)
    requires if star then columns == [] else NamesFit(columns)
    requires Stand(words, i, ColumnWords(star, columns), end) && KindAt(ReadAs(words), end) == Kw(FromWord)
    ensures ColumnsAt(ReadAs(words), i) == Got(columns, end)
  {
    CommaKind(Star);
    StandAt(words, i, ColumnWords(star, columns), end, 0);
    if !star {
      NamesAreTexts(columns);
      PlainNameKind(columns[0]);
      ListBack(words, i, Names(columns), false, end);
    }
  }

  lemma SelectParts(ts: seq<Token>, i: nat, source: QualifiedName, q: SelectStatement, b: nat, d: nat, end: nat)
    requires KindAt(ts, i) == Kw(SelectWord) && ColumnsAt(ts, i + 1) == Got(q.columns, b)
    requires q.all == (q.columns == []) && KindAt(ts, b) == Kw(FromWord)
    requires NameAt(ts, b + 1) == Got(source, d) && WhereAt(ts, d) == Got(q.where_, end)
    ensures StatementAt(ts, i) == Got(SelectFrom(source, q), end)
  {
  }

  /** What may follow a statement. */
  predicate Follows(k: Kind) {
    k == End || k == Sym(Semicolon) || k == Kw(InsertWord) || k == Kw(SelectWord)
  }

  lemma FollowsNoWhere(k: Kind)
    requires Follows(k)
    ensures k != Kw(WhereWord) && k != Sym(Dot)
  {
  }

  lemma ClauseStarts(words: seq<Word>, i: nat, c: WrittenWhere, end: nat)
    requires ClauseFits(c) && Stand(words, i, ClauseWords(c), end) && Follows(KindAt(ReadAs(words), end))
    ensures KindAt(ReadAs(words), i) != Sym(Dot)
  {
    FollowsNoWhere(KindAt(ReadAs(words), end));
    if c.Clause? {
      SaidKeyword(c.word, WhereWord);
      StandAt(words, i, ClauseWords(c), end, 0);
    }
  }

  lemma SelectStands(words: seq<Word>, i: nat, x: WrittenStatement, end: nat) returns (b: nat, d: nat)
    requires x.WrittenSelect? && StatementFits(x) && Stand(words, i, StatementWords(x), end)
    ensures KindAt(ReadAs(words), i) == Kw(SelectWord) && Stand(words, i + 1, ColumnWords(x.star, x.columns), b)
    ensures KindAt(ReadAs(words), b) == Kw(FromWord) && Stand(words, b + 1, NameWords(x.source), d)
    ensures Stand(words, d, ClauseWords(x.clause), end)
  {
    var a, c;
    a, b, c, d := StandFive(words, i, [Bare(x.select)], ColumnWords(x.star, x.columns), [Bare(x.from)],
                            NameWords(x.source), ClauseWords(x.clause), end);
    SaidKeyword(x.select, SelectWord);
    SaidKeyword(x.from, FromWord);
    StandOne(words, i, Bare(x.select), a);
    StandOne(words, b, Bare(x.from), c);
  }

  lemma SelectMeans(x: WrittenStatement) returns (q: SelectStatement)
    requires x.WrittenSelect? && StatementFits(x)
    ensures Meaning(x) == SelectFrom(x.source, q)
    ensures q.columns == x.columns && q.all == (q.columns == []) && q.where_ == ClauseMeaning(x.clause)
  {
    q := SelectStatement(x.star, x.columns, ClauseMeaning(x.clause));
  }

  lemma SelectTailBack(words: seq<Word>, i: nat, source: QualifiedName, d: nat, clause: WrittenWhere, end: nat)
    requires NameFits(source) && ClauseFits(clause) && Follows(KindAt(ReadAs(words), end))
    requires Stand(words, i, NameWords(source), d) && Stand(words, d, ClauseWords(clause), end)
    ensures NameAt(ReadAs(words), i) == Got(source, d)
    ensures d <= |words| && WhereAt(ReadAs(words), d) == Got(ClauseMeaning(clause), end)
  {
    ClauseStarts(words, d, clause, end);
    FollowsNoWhere(KindAt(ReadAs(words), end));
    NameBack(words, i, source, d);
    ClauseBack(words, d, clause, end);
  }

  lemma SelectPartsBack(words: seq<Word>, i: nat, x: WrittenStatement, end: nat) returns (b: nat, d: nat)
    requires x.WrittenSelect? && StatementFits(x) && Stand(words, i, StatementWords(x), end)
    requires Follows(KindAt(ReadAs(words), end))
    ensures KindAt(ReadAs(words), i) == Kw(SelectWord) && ColumnsAt(ReadAs(words), i + 1) == Got(x.columns, b)
    ensures KindAt(ReadAs(words), b) == Kw(FromWord) && NameAt(ReadAs(words), b + 1) == Got(x.source, d)
    ensures d <= |words| && WhereAt(ReadAs(words), d) == Got(ClauseMeaning(x.clause), end)
  {
    b, d := SelectStands(words, i, x, end);
    ColumnsBack(words, i + 1, x.star, x.columns, b);
    SelectTailBack(words, b + 1, x.source, d, x.clause, end);
  }

  lemma SelectBack(words: seq<Word>, i: nat, x: WrittenStatement, end: nat)
    requires x.WrittenSelect? && StatementFits(x) && Stand(words, i, StatementWords(x), end)
    requires Follows(KindAt(ReadAs(words), end))
    ensures StatementAt(ReadAs(words), i) == Got(Meaning(x), end) && KindAt(ReadAs(words), i) == Kw(SelectWord)
  {
    var b, d := SelectPartsBack(words, i, x, end);
    var q := SelectMeans(x);
    SelectParts(ReadAs(words), i, x.source, q, b, d, end);
  }

  lemma StatementBack(words: seq<Word>, i: nat, x: WrittenStatement, end: nat)
    requires StatementFits(x) && Stand(words, i, StatementWords(x), end) && Follows(KindAt(ReadAs(words), end))
    ensures StatementAt(ReadAs(words), i) == Got(Meaning(x), end)
    ensures KindAt(ReadAs(words), i) == Kw(InsertWord) || KindAt(ReadAs(words), i) == Kw(SelectWord)
  {
    match x
    case WrittenInsert(_, _, _, _, _, _) => InsertBack(words, i, x, end);
    case WrittenSelect(_, _, _, _, _, _) => SelectBack(words, i, x, end);
  }

  lemma {:induction false} SemicolonsBack(words: seq<Word>, i: nat, n: nat, end: nat)
    requires Stand(words, i, Semicolons(n), end)
    ensures ScriptAt(ReadAs(words), i) == ScriptAt(ReadAs(words), end)
    ensures n > 0 ==> KindAt(ReadAs(words), i) == Sym(Semicolon)
    decreases n
  {
    if n > 0 {
      var mid := StandSplit(words, i, [Bare(";")], Semicolons(n - 1), end);
      StandOne(words, i, Bare(";"), mid);
      CommaKind(Semicolon);
      SemicolonsBack(words, mid, n - 1, end);
    }
  }

  /** A statement, and whatever follows it. */
  lemma OneStatement(ts: seq<Token>, i: nat, x: Statement, end: nat)
    requires KindAt(ts, i) == Kw(InsertWord) || KindAt(ts, i) == Kw(SelectWord)
    requires StatementAt(ts, i) == Got(x, end)
    ensures ScriptAt(ts, i) == Prefixed([x], ScriptAt(ts, end))
  {
  }

  lemma SentenceStarts(words: seq<Word>, i: nat, x: WrittenStatement, n: nat, rest: seq<Word>, end: nat)
    requires StatementFits(x) && Stand(words, i, Semicolons(n) + (StatementWords(x) + rest), end)
    ensures Follows(KindAt(ReadAs(words), i))
  {
    var mid := StandSplit(words, i, Semicolons(n), StatementWords(x) + rest, end);
    if n > 0 {
      SemicolonsBack(words, i, n, mid);
    } else {
      var behind := StandSplit(words, mid, StatementWords(x), rest, end);
      StatementStarts(words, mid, x, behind);
    }
  }

  lemma ScriptStarts(words: seq<Word>, i: nat, es: seq<Sentence>, last: nat)
    requires SentencesFit(es) && Stand(words, i, ScriptWords(es, last), |words|)
    ensures Follows(KindAt(ReadAs(words), i))
  {
    if es == [] {
      SemicolonsBack(words, i, last, |words|);
      WordAt(words, i);
    } else {
      SentenceStarts(words, i, es[0].statement, es[0].semicolons, ScriptWords(es[1..], last), |words|);
    }
  }

  lemma StatementStarts(words: seq<Word>, i: nat, x: WrittenStatement, end: nat)
    requires StatementFits(x) && Stand(words, i, StatementWords(x), end)
    ensures KindAt(ReadAs(words), i) == Kw(InsertWord) || KindAt(ReadAs(words), i) == Kw(SelectWord)
  {
    StandAt(words, i, StatementWords(x), end, 0);
    match x
    case WrittenInsert(insert, _, _, _, _, _) => SaidKeyword(insert, InsertWord);
    case WrittenSelect(select, _, _, _, _, _) => SaidKeyword(select, SelectWord);
  }

  lemma {:induction false} ScriptBack(words: seq<Word>, i: nat, es: seq<Sentence>, last: nat)
    requires SentencesFit(es) && Stand(words, i, ScriptWords(es, last), |words|)
    ensures ScriptAt(ReadAs(words), i) == Some(Meanings(es))
    decreases |es|
  {
    if es == [] {
      SemicolonsBack(words, i, last, |words|);
      WordAt(words, |words|);
      assert Meanings(es) == [];
    } else {
      var x, rest := es[0].statement, ScriptWords(es[1..], last);
      var mid := StandSplit(words, i, Semicolons(es[0].semicolons), StatementWords(x) + rest, |words|);
      var end := StandSplit(words, mid, StatementWords(x), rest, |words|);
      SemicolonsBack(words, i, es[0].semicolons, mid);
      ScriptStarts(words, end, es[1..], last);
      StatementBack(words, mid, x, end);
      OneStatement(ReadAs(words), mid, Meaning(x), end);
      ScriptBack(words, end, es[1..], last);
    }
  }

  /** Whoever says a script is understood. */
  lemma SaidIsParsed(s: string, es: seq<Sentence>, last: nat)
    requires SentencesFit(es) && MadeOf(s, ScriptWords(es, last))
    ensures Parse(s) == Some(Meanings(es))
  {
    var words := ScriptWords(es, last);
    WordsAreRead(s, words);
    ReadAsTokens(words);
    assert words[0..|words|] == words;
    ScriptBack(words, 0, es, last);
  }
}
