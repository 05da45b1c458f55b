/**
  The tokenizer: blanks, comments, words, numbers, quoted strings and symbols, up to the
  first zero character.
 */
module Lexer {
  import opened Text
  import opened Sequences

  datatype Keyword = InsertWord | IntoWord | ValuesWord | SelectWord | FromWord | WhereWord

  datatype Symbol = Comma | Dot | LParen | RParen | Semicolon | Star | Eq | Gt | Ge | Lt | Le

  datatype Kind = Name | Quoted | Number | Sym(symbol: Symbol) | Kw(keyword: Keyword) | End

  datatype Token = Token(kind: Kind, lexeme: string)

  /** The character at a position; a C string reads as zero at its end. */
  function At(s: string, i: nat): char {
    if i < |s| then s[i] else '\0'
  }

  predicate IsLetter(c: char) {
    'A' <= c <= 'Z' || 'a' <= c <= 'z'
  }

  predicate IsWordStart(c: char) {
    IsLetter(c) || c == '_'
  }

  predicate IsWordChar(c: char) {
    IsWordStart(c) || IsDigit(c)
  }

  /** Keywords in any letter case; every other word is a name. */
  function WordKind(word: string): Kind {
    if SameName(word, "INSERT") then Kw(InsertWord)
    else if SameName(word, "INTO") then Kw(IntoWord)
    else if SameName(word, "VALUES") then Kw(ValuesWord)
    else if SameName(word, "SELECT") then Kw(SelectWord)
    else if SameName(word, "FROM") then Kw(FromWord)
    else if SameName(word, "WHERE") then Kw(WhereWord)
    else Name
  }

  // ---- Where things end ----

  function WordEnd(s: string, i: nat): (e: nat)
    requires i <= |s|
    ensures i <= e <= |s| && forall k :: i <= k < e ==> IsWordChar(s[k])
    ensures e < |s| ==> !IsWordChar(s[e])
    decreases |s| - i
  {
    if i < |s| && IsWordChar(s[i]) then WordEnd(s, i + 1) else i
  }

  function DigitsEnd(s: string, i: nat): (e: nat)
    requires i <= |s|
    ensures i <= e <= |s| && forall k :: i <= k < e ==> IsDigit(s[k])
    ensures e < |s| ==> !IsDigit(s[e])
    decreases |s| - i
  {
    if i < |s| && IsDigit(s[i]) then DigitsEnd(s, i + 1) else i
  }

  function LineCommentEnd(s: string, i: nat): (e: nat)
    requires i <= |s|
    ensures i <= e <= |s|
    decreases |s| - i
  {
    if At(s, i) != '\0' && s[i] != '\n' then LineCommentEnd(s, i + 1) else i
  }

  /** Past the closing mark, or nothing when there is none. */
  function BlockCommentEnd(s: string, i: nat): (e: Option<nat>)
    requires i <= |s|
    ensures e.Some? ==> i < e.value <= |s|
    decreases |s| - i
  {
    if At(s, i) == '\0' then None
    else if s[i] == '*' && At(s, i + 1) == '/' then Some(i + 2)
    else BlockCommentEnd(s, i + 1)
  }

  /** The text of a quoted string from after its opening quote, and the position after its closing quote. */
  function QuotedAt(s: string, i: nat, text: string): (r: Option<(string, nat)>)
    requires i <= |s|
    ensures r.Some? ==> i < r.value.1 <= |s|
    decreases |s| - i
  {
    if At(s, i) == '\0' then None
    else if s[i] != '\'' then QuotedAt(s, i + 1, text + [s[i]])
    else if At(s, i + 1) == '\'' then QuotedAt(s, i + 2, text + "'")
    else Some((text, i + 1))
  }

  /** The symbol at a position: its kind and length. */
  function SymbolAt(s: string, i: nat): (r: Option<(Symbol, nat)>)
    requires i < |s|
    ensures r.Some? ==> 1 <= r.value.1 && i + r.value.1 <= |s|
  {
    match s[i]
    case ',' => Some((Comma, 1))
    case '.' => Some((Dot, 1))
    case '(' => Some((LParen, 1))
    case ')' => Some((RParen, 1))
    case ';' => Some((Semicolon, 1))
    case '*' => Some((Star, 1))
    case '=' => Some((Eq, 1))
    case '>' => if At(s, i + 1) == '=' then Some((Ge, 2)) else Some((Gt, 1))
    case '<' => if At(s, i + 1) == '=' then Some((Le, 2)) else Some((Lt, 1))
    case _ => None
  }

  // ---- One step ----

  datatype Step = Stop | Skip(to: nat) | Emit(token: Token, to: nat) | Bad

  predicate StartsNumber(s: string, i: nat) {
    IsDigit(At(s, i)) || (At(s, i) == '-' && IsDigit(At(s, i + 1)))
  }

  function Next(s: string, i: nat): (step: Step)
    requires i <= |s|
    ensures step.Skip? ==> i < step.to <= |s|
    ensures step.Emit? ==> i < step.to <= |s|
    ensures step.Stop? <==> At(s, i) == '\0'
  {
    var c := At(s, i);
    if c == '\0' then Stop
    else if IsSpace(c) then Skip(i + 1)
    else if c == '-' && At(s, i + 1) == '-' then Skip(LineCommentEnd(s, i + 2))
    else if c == '/' && At(s, i + 1) == '*' then
      var e := BlockCommentEnd(s, i + 2);
      if e.Some? then Skip(e.value) else Bad
    else if IsWordStart(c) then
      var e := WordEnd(s, i);
      Emit(Token(WordKind(s[i..e]), s[i..e]), e)
    else if StartsNumber(s, i) then
      var e := DigitsEnd(s, i + 1);
      Emit(Token(Number, s[i..e]), e)
    else if c == '\'' then
      var q := QuotedAt(s, i + 1, "");
      if q.Some? then Emit(Token(Quoted, q.value.0), q.value.1) else Bad
    else
      var symbol := SymbolAt(s, i);
      if symbol.Some? then Emit(Token(Sym(symbol.value.0), s[i..i + symbol.value.1]), i + symbol.value.1) else Bad
  }

  /** All tokens from a position on, with the end token last; nothing when a step fails. */
  function Lex(s: string, i: nat): Option<seq<Token>>
    requires i <= |s|
    decreases |s| - i
  {
    match Next(s, i)
    case Stop => Some([Token(End, "")])
    case Skip(to) => Lex(s, to)
    case Emit(token, to) =>
      var rest := Lex(s, to);
      if rest.Some? then Some([token] + rest.value) else None
    case Bad => None
  }

  /** A byte order mark in front of the text is passed over. */
  function TextStart(s: string): (i: nat)
    ensures i <= |s|
  {
    if At(s, 0) == 0xEF as char && At(s, 1) == 0xBB as char && At(s, 2) == 0xBF as char then 3 else 0
  }

  function LexText(s: string): Option<seq<Token>> {
    Lex(s, TextStart(s))
  }

  // ---- The loops ----

  method SkipLineComment(s: string, start: nat) returns (i: nat)
    requires start <= |s|
    ensures i == LineCommentEnd(s, start)
  {
    i := start;
    while At(s, i) != '\0' && s[i] != '\n'
      invariant start <= i <= |s| && LineCommentEnd(s, start) == LineCommentEnd(s, i)
      decreases |s| - i
    {
      i := i + 1;
    }
  }

  method SkipBlockComment(s: string, start: nat) returns (end: Option<nat>)
    requires start <= |s|
    ensures end == BlockCommentEnd(s, start)
  {
    var i := start;
    while At(s, i) != '\0' && !(s[i] == '*' && At(s, i + 1) == '/')
      invariant start <= i <= |s| && BlockCommentEnd(s, start) == BlockCommentEnd(s, i)
      decreases |s| - i
    {
      i := i + 1;
    }
    end := if At(s, i) == '\0' then None else Some(i + 2);
  }

  method ReadWord(s: string, start: nat) returns (i: nat)
    requires start <= |s|
    ensures i == WordEnd(s, start)
  {
    i := start;
    while IsWordChar(At(s, i))
      invariant start <= i <= |s| && WordEnd(s, start) == WordEnd(s, i)
      decreases |s| - i
    {
      i := i + 1;
    }
  }

  method ReadDigits(s: string, start: nat) returns (i: nat)
    requires start <= |s|
    ensures i == DigitsEnd(s, start)
  {
    i := start;
    while IsDigit(At(s, i))
      invariant start <= i <= |s| && DigitsEnd(s, start) == DigitsEnd(s, i)
      decreases |s| - i
    {
      i := i + 1;
    }
  }

  /** Two quotes inside the string stand for one. */
  method ReadQuoted(s: string, start: nat) returns (r: Option<(string, nat)>)
    requires start <= |s|
    ensures r == QuotedAt(s, start, "")
  {
    var i, text := start, "";
    while At(s, i) != '\0'
      invariant start <= i <= |s| && QuotedAt(s, start, "") == QuotedAt(s, i, text)
      decreases |s| - i
    {
      if s[i] == '\'' {
        if At(s, i + 1) != '\'' {
          break;
        }
        text, i := text + "'", i + 2;
      } else {
        text, i := text + [s[i]], i + 1;
      }
    }
    r := if At(s, i) == '\'' then Some((text, i + 1)) else None;
  }

  method NextStep(s: string, i: nat) returns (step: Step)
    requires i <= |s|
    ensures step == Next(s, i)
  {
    var c := At(s, i);
    if c == '\0' {
      step := Stop;
    } else if IsSpace(c) {
      step := Skip(i + 1);
    } else if c == '-' && At(s, i + 1) == '-' {
      var e := SkipLineComment(s, i + 2);
      step := Skip(e);
    } else if c == '/' && At(s, i + 1) == '*' {
      var e := SkipBlockComment(s, i + 2);
      step := if e.Some? then Skip(e.value) else Bad;
    } else if IsWordStart(c) {
      var e := ReadWord(s, i);
      step := Emit(Token(WordKind(s[i..e]), s[i..e]), e);
    } else if StartsNumber(s, i) {
      var e := ReadDigits(s, i + 1);
      step := Emit(Token(Number, s[i..e]), e);
    } else if c == '\'' {
      var q := ReadQuoted(s, i + 1);
      step := if q.Some? then Emit(Token(Quoted, q.value.0), q.value.1) else Bad;
    } else {
      var symbol := SymbolAt(s, i);
      step := if symbol.None? then Bad
              else Emit(Token(Sym(symbol.value.0), s[i..i + symbol.value.1]), i + symbol.value.1);
    }
  }

  method Tokenize(s: string) returns (tokens: Option<seq<Token>>)
    ensures tokens == LexText(s)
  {
    var i, out := TextStart(s), [];
    PrefixedNothing(LexText(s));
    while true
      invariant i <= |s| && LexText(s) == Prefixed(out, Lex(s, i))
      decreases |s| - i
    {
      var step := NextStep(s, i);
      match step {
        case Stop =>
          return Some(out + [Token(End, "")]);
        case Skip(to) =>
          i := to;
        case Emit(token, to) =>
          PrefixedStep(out, token, Lex(s, to));
          out, i := out + [token], to;
        case Bad =>
          return None;
      }
    }
  }
}
