/**
  The language of scripts as it is written, character by character: words, what may stand
  between them, and the statements they make.
 */
module Writing {
  import opened Text
  import opened RowLog
  import opened Syntax
  import opened Numbers

  // ---- Words ----

  /** A word as it stands, or a text in single quotes. */
  datatype Word = Bare(text: string) | InQuotes(text: string)

  /** Every quote is written twice. */
  function Doubled(text: string): string {
    if text == "" then "" else (if text[0] == '\'' then "''" else [text[0]]) + Doubled(text[1..])
  }

  function WordText(w: Word): string {
    match w
    case Bare(text) => text
    case InQuotes(text) => "'" + (Doubled(text) + "'")
  }

  predicate Letter(c: char) {
    'A' <= c <= 'Z' || 'a' <= c <= 'z'
  }

  predicate NameStart(c: char) { Letter(c) || c == '_' }

  predicate NameChar(c: char) { Letter(c) || c == '_' || Digit(c) }

  /** The six words that are no names, in any letter case. */
  predicate Reserved(w: string) {
    || SameLetters(w, "INSERT") || SameLetters(w, "INTO") || SameLetters(w, "VALUES")
    || SameLetters(w, "SELECT") || SameLetters(w, "FROM") || SameLetters(w, "WHERE")
  }

  predicate NameText(w: string) {
    w != "" && NameStart(w[0]) && forall k :: 0 <= k < |w| ==> NameChar(w[k])
  }

  predicate PlainName(w: string) {
    NameText(w) && !Reserved(w)
  }

  /** Digits, with a minus sign in front or without. */
  predicate NumeralText(w: string) {
    Digits(w) || (w != "" && w[0] == '-' && Digits(w[1..]))
  }

  predicate SymbolWord(w: string) {
    || w == "," || w == "." || w == "(" || w == ")" || w == ";" || w == "*"
    || w == "=" || w == ">" || w == ">=" || w == "<" || w == "<="
  }

  predicate WordFits(w: Word) {
    match w
    case Bare(x) => PlainName(x) || Reserved(x) || NumeralText(x) || SymbolWord(x)
    case InQuotes(x) => NoNul(x)
  }

  // ---- Layout ----

  /** What may stand between two words: a blank, or a comment of either kind. */
  datatype Filler = Space(c: char) | LineComment(text: string) | BlockComment(text: string)

  function FillerText(f: Filler): string {
    match f
    case Space(c) => [c]
    case LineComment(text) => "--" + text
    case BlockComment(text) => "/*" + (text + "*/")
  }

  /** A line comment goes up to the end of its line, a block comment up to its first closing mark. */
  predicate FillerFits(f: Filler, rest: string) {
    match f
    case Space(c) => Blank(c)
    case LineComment(text) =>
      && (forall i :: 0 <= i < |text| ==> text[i] != '\n' && text[i] != '\0')
      && (rest == "" || rest[0] == '\n' || rest[0] == '\0')
    case BlockComment(text) =>
      NoNul(text) && forall i :: 0 <= i < |text| - 1 ==> !(text[i] == '*' && text[i + 1] == '/')
  }

  type Gap = seq<Filler>

  function GapText(gap: Gap): string {
    if gap == [] then "" else FillerText(gap[0]) + GapText(gap[1..])
  }

  predicate GapFits(gap: Gap, rest: string) {
    gap == [] || (FillerFits(gap[0], GapText(gap[1..]) + rest) && GapFits(gap[1..], rest))
  }

  /** The character behind a word does not go on with it. */
  predicate Closed(w: Word, rest: string) {
    rest == "" ||
    match w
    case InQuotes(_) => rest[0] != '\''
    case Bare(x) =>
      if x == "" then true
      else if NameStart(x[0]) then !NameChar(rest[0])
      else if Digit(x[0]) || x[0] == '-' then !Digit(rest[0])
      else if x == ">" || x == "<" then rest[0] != '='
      else true
  }

  /** Words with gaps around them, and what the tokenizer never sees: a zero character and all behind it. */
  function Laid(words: seq<Word>, gaps: seq<Gap>, junk: string): string
    requires |gaps| == |words| + 1
  {
    if words == [] then GapText(gaps[0]) + junk
    else GapText(gaps[0]) + (WordText(words[0]) + Laid(words[1..], gaps[1..], junk))
  }

  /** Gaps may be empty where the word before is closed all the same. */
  predicate LaidWell(words: seq<Word>, gaps: seq<Gap>, junk: string)
    requires |gaps| == |words| + 1
  {
    if words == [] then GapFits(gaps[0], junk) && (junk == "" || junk[0] == '\0')
    else
      var rest := Laid(words[1..], gaps[1..], junk);
      && GapFits(gaps[0], WordText(words[0]) + rest)
      && WordFits(words[0]) && Closed(words[0], rest)
      && LaidWell(words[1..], gaps[1..], junk)
  }

  /** A byte order mark, or nothing. */
  predicate IsMark(mark: string) {
    mark == "" || mark == [0xEF as char, 0xBB as char, 0xBF as char]
  }

  /** A text made of the given words. */
  ghost predicate MadeOf(s: string, words: seq<Word>) {
    exists mark, gaps, junk ::
      IsMark(mark) && |gaps| == |words| + 1 && LaidWell(words, gaps, junk) && s == mark + Laid(words, gaps, junk)
  }

  // ---- Statements ----

  /** A value may be quoted, a numeral, or a name. */
  predicate LiteralFits(l: Word) {
    match l
    case Bare(x) => NumeralText(x) || PlainName(x)
    case InQuotes(x) => NoNul(x)
  }

  datatype WrittenWhere = NoClause | Clause(word: string, column: string, op: string, value: Word)

  datatype WrittenStatement =
    | WrittenInsert(insert: string, into: string, target: QualifiedName, columns: seq<string>, values: string,
                    literals: seq<Word>)
    | WrittenSelect(select: string, star: bool, columns: seq<string>, from: string, source: QualifiedName,
                    clause: WrittenWhere)

  function OpMeaning(op: string): Option<Op> {
    if op == "=" then Some(Equal)
    else if op == ">" then Some(Greater)
    else if op == ">=" then Some(GreaterEqual)
    else if op == "<" then Some(Less)
    else if op == "<=" then Some(LessEqual)
    else None
  }

  predicate NameFits(q: QualifiedName) {
    PlainName(q.table) && (q.schema.Some? ==> PlainName(q.schema.value))
  }

  predicate NamesFit(ws: seq<string>) {
    ws != [] && forall k :: 0 <= k < |ws| ==> PlainName(ws[k])
  }

  predicate LiteralsFit(ls: seq<Word>) {
    ls != [] && forall k :: 0 <= k < |ls| ==> LiteralFits(ls[k])
  }

  predicate ClauseFits(c: WrittenWhere) {
    match c
    case NoClause => true
    case Clause(word, column, op, value) =>
      SameLetters(word, "WHERE") && PlainName(column) && OpMeaning(op).Some? && LiteralFits(value)
  }

  predicate StatementFits(x: WrittenStatement) {
    match x
    case WrittenInsert(insert, into, target, columns, values, literals) =>
      && SameLetters(insert, "INSERT") && SameLetters(into, "INTO") && SameLetters(values, "VALUES")
      && NameFits(target) && NamesFit(columns) && LiteralsFit(literals)
    case WrittenSelect(select, star, columns, from, source, clause) =>
      && SameLetters(select, "SELECT") && SameLetters(from, "FROM")
      && (if star then columns == [] else NamesFit(columns))
      && NameFits(source) && ClauseFits(clause)
  }

  // ---- Their words ----

  function Names(ws: seq<string>): (items: seq<Word>)
    ensures |items| == |ws|
  {
    if ws == [] then [] else [Bare(ws[0])] + Names(ws[1..])
  }

  function Texts(ls: seq<Word>): (ws: seq<string>)
    ensures |ws| == |ls|
  {
    if ls == [] then [] else [ls[0].text] + Texts(ls[1..])
  }

  /** Items with commas between them. */
  function ListWords(items: seq<Word>): seq<Word>
    requires items != []
  {
    if |items| == 1 then [items[0]] else [items[0], Bare(",")] + ListWords(items[1..])
  }

  function InParentheses(items: seq<Word>): seq<Word>
    requires items != []
  {
    [Bare("(")] + (ListWords(items) + [Bare(")")])
  }

  function NameWords(q: QualifiedName): seq<Word> {
    match q.schema
    case None => [Bare(q.table)]
    case Some(schema) => [Bare(schema), Bare("."), Bare(q.table)]
  }

  function ColumnWords(star: bool, columns: seq<string>): seq<Word>
    requires star || columns != []
  {
    if star then [Bare("*")] else ListWords(Names(columns))
  }

  function ClauseWords(c: WrittenWhere): seq<Word> {
    match c
    case NoClause => []
    case Clause(word, column, op, value) => [Bare(word), Bare(column), Bare(op), value]
  }

  function StatementWords(x: WrittenStatement): seq<Word>
    requires StatementFits(x)
  {
    match x
    case WrittenInsert(insert, into, target, columns, values, literals) =>
      [Bare(insert), Bare(into)]
      + (NameWords(target) + (InParentheses(Names(columns)) + ([Bare(values)] + InParentheses(literals))))
    case WrittenSelect(select, star, columns, from, source, clause) =>
      [Bare(select)] + (ColumnWords(star, columns) + ([Bare(from)] + (NameWords(source) + ClauseWords(clause))))
  }

  /** What a written statement means. */
  function Meaning(x: WrittenStatement): Statement
    requires StatementFits(x)
  {
    match x
    case WrittenInsert(_, _, target, columns, _, literals) => InsertInto(target, columns, Texts(literals))
    case WrittenSelect(_, star, columns, _, source, clause) =>
      SelectFrom(source, SelectStatement(star, columns, ClauseMeaning(clause)))
  }

  function ClauseMeaning(c: WrittenWhere): Where
    requires ClauseFits(c)
  {
    match c
    case NoClause => NoWhere
    case Clause(_, column, op, value) => Where(column, value.text, OpMeaning(op).value)
  }

  // ---- Scripts ----

  /** A statement, and the number of semicolons in front of it: any, also none. */
  datatype Sentence = Sentence(semicolons: nat, statement: WrittenStatement)

  predicate SentencesFit(es: seq<Sentence>) {
    forall k :: 0 <= k < |es| ==> StatementFits(es[k].statement)
  }

  function Semicolons(n: nat): seq<Word> {
    if n == 0 then [] else [Bare(";")] + Semicolons(n - 1)
  }

  /** The statements with their semicolons, and more semicolons at the end. */
  function ScriptWords(es: seq<Sentence>, last: nat): seq<Word>
    requires SentencesFit(es)
  {
    if es == [] then Semicolons(last)
    else Semicolons(es[0].semicolons) + (StatementWords(es[0].statement) + ScriptWords(es[1..], last))
  }

  function Meanings(es: seq<Sentence>): seq<Statement>
    requires SentencesFit(es)
  {
    if es == [] then [] else [Meaning(es[0].statement)] + Meanings(es[1..])
  }

  /** The text is a script of these statements, in whatever layout and spelling. */
  ghost predicate Says(s: string, xs: seq<Statement>) {
    exists es, last :: SentencesFit(es) && MadeOf(s, ScriptWords(es, last)) && xs == Meanings(es)
  }
}
