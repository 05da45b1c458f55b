/**
  The parser against the written language: a text parses to a script exactly when it says
  that script, in whatever layout, letter case and spelling of its values.
 */
module ParserProofs {
  import opened Text
  import opened Sequences
  import opened Syntax
  import opened Numbers
  import opened Lexer
  import opened LexerProofs
  import opened Writing
  import opened Layout
  import opened Parser
  import opened WordKinds
  import opened Understood

  // ---- What is parsed was said ----

  ghost predicate AllFit(words: seq<Word>) {
    forall i :: 0 <= i < |words| ==> WordFits(words[i])
  }

  lemma OneStands(words: seq<Word>, i: nat)
    requires i < |words|
    ensures Stand(words, i, [words[i]], i + 1)
  {
  }

  /** A symbol at a position is a word of the text. */
  lemma SymbolWritten(words: seq<Word>, i: nat, symbol: Symbol)
    requires AllFit(words) && KindAt(ReadAs(words), i) == Sym(symbol)
    ensures i < |words| && words[i] == Bare(SymbolText(symbol)) && Stand(words, i, [Bare(SymbolText(symbol))], i + 1)
  {
    WordAt(words, i);
    SymbolKind(words[i], symbol);
    OneStands(words, i);
  }

  lemma KeywordWritten(words: seq<Word>, i: nat, k: Keyword) returns (w: string)
    requires AllFit(words) && KindAt(ReadAs(words), i) == Kw(k)
    ensures i < |words| && SameLetters(w, KeywordText(k)) && words[i] == Bare(w) && Stand(words, i, [Bare(w)], i + 1)
  {
    WordAt(words, i);
    KeywordKind(words[i], k);
    OneStands(words, i);
    w := words[i].text;
  }

  lemma NameItemWritten(words: seq<Word>, i: nat)
    requires AllFit(words) && KindAt(ReadAs(words), i) == Name
    ensures i < |words| && PlainName(LexemeAt(ReadAs(words), i)) && words[i] == Bare(LexemeAt(ReadAs(words), i))
  {
    WordAt(words, i);
    NameKind(words[i]);
  }

  lemma ItemWritten(words: seq<Word>, i: nat, literals: bool)
    requires AllFit(words)
    requires var k := KindAt(ReadAs(words), i); k == Name || (literals && IsLiteral(k))
    ensures i < |words| && ItemFits(words[i], literals) && LexemeAt(ReadAs(words), i) == words[i].text
  {
    WordAt(words, i);
    ItemKind(words[i], literals);
  }

  lemma {:induction false} ListWritten(words: seq<Word>, i: nat, literals: bool, vals: seq<string>, next: nat)
    returns (items: seq<Word>)
    requires AllFit(words) && ListAt(ReadAs(words), i, literals) == Got(vals, next)
    ensures ItemsFit(items, literals) && Stand(words, i, ListWords(items), next) && Texts(items) == vals
    decreases |words| + 1 - i
  {
    ItemWritten(words, i, literals);
    OneStands(words, i);
    items := [words[i]];
    if KindAt(ReadAs(words), i + 1) == Sym(Comma) {
      SymbolWritten(words, i + 1, Comma);
      var more := ListAt(ReadAs(words), i + 2, literals);
      var rest := ListWritten(words, i + 2, literals, more.value, next);
      items := [words[i]] + rest;
      assert items[1..] == rest;
      StandJoin(words, i, [words[i]], i + 1, [Bare(",")], i + 2);
      assert [words[i]] + [Bare(",")] == [words[i], Bare(",")];
      StandJoin(words, i, [words[i], Bare(",")], i + 2, ListWords(rest), next);
    }
  }

  lemma ParenthesizedWritten(words: seq<Word>, i: nat, literals: bool, vals: seq<string>, next: nat)
    returns (items: seq<Word>)
    requires AllFit(words) && ParenthesizedAt(ReadAs(words), i, literals) == Got(vals, next)
    ensures ItemsFit(items, literals) && Stand(words, i, InParentheses(items), next) && Texts(items) == vals
  {
    var close: nat := next - 1;
    SymbolWritten(words, i, LParen);
    SymbolWritten(words, close, RParen);
    items := ListWritten(words, i + 1, literals, vals, close);
    StandJoin(words, i + 1, ListWords(items), close, [Bare(")")], next);
    StandJoin(words, i, [Bare("(")], i + 1, ListWords(items) + [Bare(")")], next);
  }

  lemma {:induction false} ItemsAreNames(items: seq<Word>)
    requires forall k :: 0 <= k < |items| ==> ItemFits(items[k], false)
    ensures Names(Texts(items)) == items && forall k :: 0 <= k < |items| ==> PlainName(Texts(items)[k])
  {
    if items != [] {
      assert ItemFits(items[0], false);
      ItemsAreNames(items[1..]);
    }
  }

  lemma ThreeStand(words: seq<Word>, i: nat)
    requires i + 3 <= |words|
    ensures Stand(words, i, [words[i], words[i + 1], words[i + 2]], i + 3)
  {
    var part := words[i..i + 3];
    assert part[0] == words[i] && part[1] == words[i + 1] && part[2] == words[i + 2];
  }

  lemma NamePieces(ts: seq<Token>, i: nat, q: QualifiedName, next: nat)
    requires NameAt(ts, i) == Got(q, next)
    ensures KindAt(ts, i) == Name
    ensures match q.schema
            case None => q.table == LexemeAt(ts, i) && next == i + 1
            case Some(schema) =>
              && schema == LexemeAt(ts, i) && KindAt(ts, i + 1) == Sym(Dot) && KindAt(ts, i + 2) == Name
              && q.table == LexemeAt(ts, i + 2) && next == i + 3
  {
  }

  lemma NameWritten(words: seq<Word>, i: nat, q: QualifiedName, next: nat)
    requires AllFit(words) && NameAt(ReadAs(words), i) == Got(q, next)
    ensures NameFits(q) && Stand(words, i, NameWords(q), next)
  {
    NamePieces(ReadAs(words), i, q, next);
    NameItemWritten(words, i);
    if q.schema.Some? {
      SymbolWritten(words, i + 1, Dot);
      NameItemWritten(words, i + 2);
      ThreeStand(words, i);
      assert NameWords(q) == [words[i], words[i + 1], words[i + 2]];
    } else {
      OneStands(words, i);
    }
  }

  lemma OpWritten(words: seq<Word>, i: nat, op: Op)
    requires AllFit(words) && OpOf(KindAt(ReadAs(words), i)) == Some(op)
    ensures i < |words| && words[i].Bare? && OpMeaning(words[i].text) == Some(op)
  {
    WordAt(words, i);
    OpIff(words[i]);
  }

  lemma FourStand(words: seq<Word>, i: nat)
    requires i + 4 <= |words|
    ensures Stand(words, i, [words[i], words[i + 1], words[i + 2], words[i + 3]], i + 4)
  {
  }

  lemma ClauseSaid(word: string, column: string, op: string, value: Word, meant: Op) returns (c: WrittenWhere)
    requires SameLetters(word, KeywordText(WhereWord)) && PlainName(column)
    requires OpMeaning(op) == Some(meant) && LiteralFits(value)
    ensures ClauseFits(c) && ClauseWords(c) == [Bare(word), Bare(column), Bare(op), value]
    ensures ClauseMeaning(c) == Where(column, value.text, meant)
  {
    c := Clause(word, column, op, value);
  }

  lemma ClauseWritten(words: seq<Word>, i: nat, w: Where, next: nat) returns (c: WrittenWhere)
    requires i <= |words| && AllFit(words) && WhereAt(ReadAs(words), i) == Got(w, next)
    ensures ClauseFits(c) && Stand(words, i, ClauseWords(c), next) && ClauseMeaning(c) == w
  {
    if KindAt(ReadAs(words), i) != Kw(WhereWord) {
      c := NoClause;
    } else {
      var word := KeywordWritten(words, i, WhereWord);
      NameItemWritten(words, i + 1);
      OpWritten(words, i + 2, w.op);
      ItemWritten(words, i + 3, true);
      FourStand(words, i);
      c := ClauseSaid(word, words[i + 1].text, words[i + 2].text, words[i + 3], w.op);
    }
  }

  lemma InsertPieces(ts: seq<Token>, i: nat, x: Statement, end: nat) returns (j: nat, k: nat)
    requires KindAt(ts, i) == Kw(InsertWord) && StatementAt(ts, i) == Got(x, end)
    ensures x.InsertInto? && KindAt(ts, i + 1) == Kw(IntoWord) && NameAt(ts, i + 2) == Got(x.target, j)
    ensures ParenthesizedAt(ts, j, false) == Got(x.columns, k) && KindAt(ts, k) == Kw(ValuesWord)
    ensures ParenthesizedAt(ts, k + 1, true) == Got(x.values, end)
  {
    j := NameAt(ts, i + 2).next;
    k := ParenthesizedAt(ts, j, false).next;
  }

  lemma TwoStand(words: seq<Word>, i: nat)
    requires i + 2 <= |words|
    ensures Stand(words, i, [words[i], words[i + 1]], i + 2)
  {
  }

  lemma InsertHead(words: seq<Word>, i: nat) returns (insert: string, into: string)
    requires AllFit(words) && KindAt(ReadAs(words), i) == Kw(InsertWord) && KindAt(ReadAs(words), i + 1) == Kw(IntoWord)
    ensures SameLetters(insert, KeywordText(InsertWord)) && SameLetters(into, KeywordText(IntoWord))
    ensures Stand(words, i, [Bare(insert), Bare(into)], i + 2)
  {
    insert := KeywordWritten(words, i, InsertWord);
    into := KeywordWritten(words, i + 1, IntoWord);
    TwoStand(words, i);
  }

  lemma ColumnsInParentheses(words: seq<Word>, i: nat, columns: seq<string>, next: nat)
    requires AllFit(words) && ParenthesizedAt(ReadAs(words), i, false) == Got(columns, next)
    ensures NamesFit(columns) && Stand(words, i, InParentheses(Names(columns)), next)
  {
    var items := ParenthesizedWritten(words, i, false, columns, next);
    ItemsAreNames(items);
  }

  lemma LiteralsInParentheses(words: seq<Word>, i: nat, values: seq<string>, next: nat) returns (literals: seq<Word>)
    requires AllFit(words) && ParenthesizedAt(ReadAs(words), i, true) == Got(values, next)
    ensures LiteralsFit(literals) && Stand(words, i, InParentheses(literals), next) && Texts(literals) == values
  {
    literals := ParenthesizedWritten(words, i, true, values, next);
    forall k | 0 <= k < |literals| ensures LiteralFits(literals[k]) {
      assert ItemFits(literals[k], true);
    }
  }

  lemma InsertSaid(insert: string, into: string, target: QualifiedName, columns: seq<string>, values: string,
                   literals: seq<Word>)
    returns (said: WrittenStatement)
    requires SameLetters(insert, KeywordText(InsertWord)) && SameLetters(into, KeywordText(IntoWord))
    requires SameLetters(values, KeywordText(ValuesWord))
    requires NameFits(target) && NamesFit(columns) && LiteralsFit(literals)
    ensures StatementFits(said) && Meaning(said) == InsertInto(target, columns, Texts(literals))
    ensures StatementWords(said)
         == [Bare(insert), Bare(into)]
            + (NameWords(target) + (InParentheses(Names(columns)) + ([Bare(values)] + InParentheses(literals))))
  {
    said := WrittenInsert(insert, into, target, columns, values, literals);
  }

  lemma InsertFront(words: seq<Word>, i: nat, target: QualifiedName, columns: seq<string>, j: nat, k: nat)
    returns (insert: string, into: string)
    requires AllFit(words) && KindAt(ReadAs(words), i) == Kw(InsertWord) && KindAt(ReadAs(words), i + 1) == Kw(IntoWord)
    requires NameAt(ReadAs(words), i + 2) == Got(target, j)
    requires ParenthesizedAt(ReadAs(words), j, false) == Got(columns, k)
    ensures SameLetters(insert, KeywordText(InsertWord)) && SameLetters(into, KeywordText(IntoWord))
    ensures NameFits(target) && NamesFit(columns) && Stand(words, i, [Bare(insert), Bare(into)], i + 2)
    ensures Stand(words, i + 2, NameWords(target), j) && Stand(words, j, InParentheses(Names(columns)), k)
  {
    insert, into := InsertHead(words, i);
    NameWritten(words, i + 2, target, j);
    ColumnsInParentheses(words, j, columns, k);
  }

  lemma InsertTail(words: seq<Word>, k: nat, values: seq<string>, end: nat)
    returns (word: string, literals: seq<Word>)
    requires AllFit(words) && KindAt(ReadAs(words), k) == Kw(ValuesWord)
    requires ParenthesizedAt(ReadAs(words), k + 1, true) == Got(values, end)
    ensures SameLetters(word, KeywordText(ValuesWord)) && Stand(words, k, [Bare(word)], k + 1)
    ensures LiteralsFit(literals) && Stand(words, k + 1, InParentheses(literals), end) && Texts(literals) == values
  {
    word := KeywordWritten(words, k, ValuesWord);
    literals := LiteralsInParentheses(words, k + 1, values, end);
  }

  lemma InsertWritten(words: seq<Word>, i: nat, x: Statement, end: nat) returns (said: WrittenStatement)
    requires AllFit(words) && KindAt(ReadAs(words), i) == Kw(InsertWord) && StatementAt(ReadAs(words), i) == Got(x, end)
    ensures StatementFits(said) && Stand(words, i, StatementWords(said), end) && Meaning(said) == x
  {
    var j, k := InsertPieces(ReadAs(words), i, x, end);
    var insert, into := InsertFront(words, i, x.target, x.columns, j, k);
    var values, literals := InsertTail(words, k, x.values, end);
    JoinFive(words, i, [Bare(insert), Bare(into)], i + 2, NameWords(x.target), j, InParentheses(Names(x.columns)), k,
             [Bare(values)], k + 1, InParentheses(literals), end);
    said := InsertSaid(insert, into, x.target, x.columns, values, literals);
  }

  lemma SelectPieces(ts: seq<Token>, i: nat, x: Statement, end: nat) returns (j: nat, k: nat)
    requires KindAt(ts, i) == Kw(SelectWord) && StatementAt(ts, i) == Got(x, end)
    ensures x.SelectFrom? && ColumnsAt(ts, i + 1) == Got(x.query.columns, j) && KindAt(ts, j) == Kw(FromWord)
    ensures x.query.all == (x.query.columns == []) && NameAt(ts, j + 1) == Got(x.source, k)
    ensures k <= |ts| && WhereAt(ts, k) == Got(x.query.where_, end)
  {
    j := ColumnsAt(ts, i + 1).next;
    k := NameAt(ts, j + 1).next;
  }

  lemma ColumnsWritten(words: seq<Word>, i: nat, columns: seq<string>, next: nat)
    requires AllFit(words) && ColumnsAt(ReadAs(words), i) == Got(columns, next)
    ensures columns != [] ==> NamesFit(columns)
    ensures Stand(words, i, ColumnWords(columns == [], columns), next)
  {
    if KindAt(ReadAs(words), i) == Sym(Star) {
      SymbolWritten(words, i, Star);
    } else {
      var items := ListWritten(words, i, false, columns, next);
      ItemsAreNames(items);
    }
  }

  lemma SelectSaid(select: string, star: bool, columns: seq<string>, from: string, source: QualifiedName,
                   clause: WrittenWhere)
    returns (said: WrittenStatement)
    requires SameLetters(select, KeywordText(SelectWord)) && SameLetters(from, KeywordText(FromWord))
    requires NameFits(source) && ClauseFits(clause)
    requires if star then columns == [] else NamesFit(columns)
    ensures StatementFits(said)
    ensures Meaning(said) == SelectFrom(source, SelectStatement(star, columns, ClauseMeaning(clause)))
    ensures StatementWords(said)
         == [Bare(select)] + (ColumnWords(star, columns) + ([Bare(from)] + (NameWords(source) + ClauseWords(clause))))
  {
    said := WrittenSelect(select, star, columns, from, source, clause);
  }

  lemma SelectFront(words: seq<Word>, i: nat, columns: seq<string>, j: nat) returns (select: string)
    requires AllFit(words) && KindAt(ReadAs(words), i) == Kw(SelectWord)
    requires ColumnsAt(ReadAs(words), i + 1) == Got(columns, j)
    ensures SameLetters(select, KeywordText(SelectWord)) && Stand(words, i, [Bare(select)], i + 1)
    ensures columns != [] ==> NamesFit(columns)
    ensures Stand(words, i + 1, ColumnWords(columns == [], columns), j)
  {
    select := KeywordWritten(words, i, SelectWord);
    ColumnsWritten(words, i + 1, columns, j);
  }

  lemma SelectTail(words: seq<Word>, j: nat, source: QualifiedName, k: nat, w: Where, end: nat)
    returns (from: string, clause: WrittenWhere)
    requires AllFit(words) && KindAt(ReadAs(words), j) == Kw(FromWord)
    requires NameAt(ReadAs(words), j + 1) == Got(source, k)
    requires k <= |words| + 1 && WhereAt(ReadAs(words), k) == Got(w, end)
    ensures SameLetters(from, KeywordText(FromWord)) && Stand(words, j, [Bare(from)], j + 1)
    ensures NameFits(source) && Stand(words, j + 1, NameWords(source), k)
    ensures ClauseFits(clause) && Stand(words, k, ClauseWords(clause), end) && ClauseMeaning(clause) == w
  {
    from := KeywordWritten(words, j, FromWord);
    NameWritten(words, j + 1, source, k);
    clause := ClauseWritten(words, k, w, end);
  }

  lemma SelectWritten(words: seq<Word>, i: nat, x: Statement, end: nat) returns (said: WrittenStatement)
    requires AllFit(words) && KindAt(ReadAs(words), i) == Kw(SelectWord) && StatementAt(ReadAs(words), i) == Got(x, end)
    ensures StatementFits(said) && Stand(words, i, StatementWords(said), end) && Meaning(said) == x
  {
    var q := x.query;
    var j, k := SelectPieces(ReadAs(words), i, x, end);
    var select := SelectFront(words, i, q.columns, j);
    var from, clause := SelectTail(words, j, x.source, k, q.where_, end);
    JoinFive(words, i, [Bare(select)], i + 1, ColumnWords(q.all, q.columns), j, [Bare(from)], j + 1,
             NameWords(x.source), k, ClauseWords(clause), end);
    said := SelectSaid(select, q.all, q.columns, from, x.source, clause);
  }

  lemma StatementWritten(words: seq<Word>, i: nat, x: Statement, end: nat) returns (said: WrittenStatement)
    requires AllFit(words) && StatementAt(ReadAs(words), i) == Got(x, end)
    ensures StatementFits(said) && Stand(words, i, StatementWords(said), end) && Meaning(said) == x
  {
    if KindAt(ReadAs(words), i) == Kw(InsertWord) {
      said := InsertWritten(words, i, x, end);
    } else {
      said := SelectWritten(words, i, x, end);
    }
  }

  lemma SemicolonInFront(n: nat, rest: seq<Word>)
    ensures [Bare(";")] + (Semicolons(n) + rest) == Semicolons(n + 1) + rest
    ensures [Bare(";")] + Semicolons(n) == Semicolons(n + 1)
  {
    AppendAssoc([Bare(";")], Semicolons(n), rest);
  }

  lemma SentenceWords(n: nat, x: WrittenStatement, es: seq<Sentence>, last: nat)
    requires SentencesFit(es) && StatementFits(x)
    ensures SentencesFit([Sentence(n, x)] + es)
    ensures ScriptWords([Sentence(n, x)] + es, last) == Semicolons(n) + (StatementWords(x) + ScriptWords(es, last))
    ensures Meanings([Sentence(n, x)] + es) == [Meaning(x)] + Meanings(es)
  {
    assert ([Sentence(n, x)] + es)[1..] == es;
  }

  lemma SemicolonBefore(n: nat, x: WrittenStatement, es: seq<Sentence>, last: nat)
    requires SentencesFit(es) && StatementFits(x)
    ensures SentencesFit([Sentence(n, x)] + es) && SentencesFit([Sentence(n + 1, x)] + es)
    ensures ScriptWords([Sentence(n + 1, x)] + es, last) == [Bare(";")] + ScriptWords([Sentence(n, x)] + es, last)
    ensures Meanings([Sentence(n + 1, x)] + es) == Meanings([Sentence(n, x)] + es)
  {
    SentenceWords(n, x, es, last);
    SentenceWords(n + 1, x, es, last);
    SemicolonInFront(n, StatementWords(x) + ScriptWords(es, last));
  }

  lemma SemicolonMore(es: seq<Sentence>, last: nat) returns (more: seq<Sentence>, final: nat)
    requires SentencesFit(es)
    ensures SentencesFit(more) && ScriptWords(more, final) == [Bare(";")] + ScriptWords(es, last)
    ensures Meanings(more) == Meanings(es)
  {
    if es == [] {
      more, final := [], last + 1;
    } else {
      more, final := [Sentence(es[0].semicolons + 1, es[0].statement)] + es[1..], last;
      SemicolonBefore(es[0].semicolons, es[0].statement, es[1..], last);
      assert [Sentence(es[0].semicolons, es[0].statement)] + es[1..] == es;
    }
  }

  lemma OneSemicolonMore(words: seq<Word>, i: nat, es: seq<Sentence>, last: nat)
    returns (more: seq<Sentence>, final: nat)
    requires SentencesFit(es) && Stand(words, i, [Bare(";")], i + 1)
    requires Stand(words, i + 1, ScriptWords(es, last), |words|)
    ensures SentencesFit(more) && Stand(words, i, ScriptWords(more, final), |words|) && Meanings(more) == Meanings(es)
  {
    more, final := SemicolonMore(es, last);
    StandJoin(words, i, [Bare(";")], i + 1, ScriptWords(es, last), |words|);
  }

  lemma OneSentenceMore(words: seq<Word>, i: nat, x: WrittenStatement, end: nat, es: seq<Sentence>, last: nat)
    returns (more: seq<Sentence>)
    requires SentencesFit(es) && StatementFits(x) && Stand(words, i, StatementWords(x), end)
    requires Stand(words, end, ScriptWords(es, last), |words|)
    ensures SentencesFit(more) && Stand(words, i, ScriptWords(more, last), |words|)
    ensures Meanings(more) == [Meaning(x)] + Meanings(es)
  {
    more := [Sentence(0, x)] + es;
    SentenceWords(0, x, es, last);
    StandJoin(words, i, StatementWords(x), end, ScriptWords(es, last), |words|);
    assert Semicolons(0) + (StatementWords(x) + ScriptWords(es, last)) == StatementWords(x) + ScriptWords(es, last);
  }

  lemma ScriptPieces(ts: seq<Token>, i: nat, xs: seq<Statement>) returns (x: Statement, end: nat)
    requires KindAt(ts, i) != End && KindAt(ts, i) != Sym(Semicolon) && ScriptAt(ts, i) == Some(xs)
    ensures StatementAt(ts, i) == Got(x, end) && xs != [] && x == xs[0] && ScriptAt(ts, end) == Some(xs[1..])
    ensures i < end <= |ts|
  {
    var r := StatementAt(ts, i);
    x, end := r.value, r.next;
    assert ScriptAt(ts, i) == Prefixed([x], ScriptAt(ts, end));
  }

  lemma {:induction false} ScriptWritten(words: seq<Word>, i: nat, xs: seq<Statement>)
    returns (es: seq<Sentence>, last: nat)
    requires i <= |words| && AllFit(words) && ScriptAt(ReadAs(words), i) == Some(xs)
    ensures SentencesFit(es) && Stand(words, i, ScriptWords(es, last), |words|) && Meanings(es) == xs
    decreases |words| - i
  {
    WordAt(words, i);
    if i == |words| {
      es, last := [], 0;
    } else if KindAt(ReadAs(words), i) == Sym(Semicolon) {
      SymbolWritten(words, i, Semicolon);
      es, last := ScriptWritten(words, i + 1, xs);
      es, last := OneSemicolonMore(words, i, es, last);
    } else {
      LexemeIsText(words[i]);
      var x, end := ScriptPieces(ReadAs(words), i, xs);
      var said := StatementWritten(words, i, x, end);
      es, last := ScriptWritten(words, end, xs[1..]);
      es := OneSentenceMore(words, i, said, end, es, last);
    }
  }

  lemma ParsedIsSaid(s: string, xs: seq<Statement>)
    requires Parse(s) == Some(xs)
    ensures Says(s, xs)
  {
    var words := WordsOfRead(s);
    var mark, gaps, junk :|
      IsMark(mark) && |gaps| == |words| + 1 && LaidWell(words, gaps, junk) && s == mark + Laid(words, gaps, junk);
    LaidFits(words, gaps, junk);
    ReadAsTokens(words);
    var es, last := ScriptWritten(words, 0, xs);
    assert words[0..|words|] == words;
  }

  /** A text parses to a script exactly when it says it. */
  lemma ParsedIffSaid(s: string, xs: seq<Statement>)
    ensures Parse(s) == Some(xs) <==> Says(s, xs)
  {
    if Parse(s) == Some(xs) {
      ParsedIsSaid(s, xs);
    }
    if es: seq<Sentence>, last: nat :| SentencesFit(es) && MadeOf(s, ScriptWords(es, last)) && xs == Meanings(es) {
      SaidIsParsed(s, es, last);
    }
  }
}
