/**
  Spelling tokens and reading them back: every sequence of proper tokens survives the
  round trip, and every token the tokenizer produces is proper.
 */
module LexerProofs {
  import opened Text
  import opened RowLog
  import opened Lexer
  import Writing

  // ---- Spelling ----

  function Spell(t: Token): string {
    if t.kind == Quoted then "'" + (Writing.Doubled(t.lexeme) + "'") else t.lexeme
  }

  /** One blank after every token. */
  function SpellAll(ts: seq<Token>): string {
    if ts == [] then "" else Spell(ts[0]) + (" " + SpellAll(ts[1..]))
  }

  predicate IsWord(w: string) {
    w != "" && IsWordStart(w[0]) && forall k :: 0 <= k < |w| ==> IsWordChar(w[k])
  }

  /** Digits, with at most one minus sign in front. */
  predicate IsNumeral(w: string) {
    && w != "" && (IsDigit(w[0]) || (w[0] == '-' && |w| > 1))
    && forall k :: 1 <= k < |w| ==> IsDigit(w[k])
  }

  function SymbolText(symbol: Symbol): string {
    match symbol
    case Comma => ","
    case Dot => "."
    case LParen => "("
    case RParen => ")"
    case Semicolon => ";"
    case Star => "*"
    case Eq => "="
    case Gt => ">"
    case Ge => ">="
    case Lt => "<"
    case Le => "<="
  }

  /** A token with a lexeme that fits its kind. */
  predicate Proper(t: Token) {
    match t.kind
    case Quoted => NoNul(t.lexeme)
    case Number => IsNumeral(t.lexeme)
    case Sym(symbol) => t.lexeme == SymbolText(symbol)
    case Name => IsWord(t.lexeme) && WordKind(t.lexeme) == Name
    case Kw(k) => IsWord(t.lexeme) && WordKind(t.lexeme) == Kw(k)
    case End => false
  }

  predicate AllProper(ts: seq<Token>) {
    ts == [] || (Proper(ts[0]) && AllProper(ts[1..]))
  }

  // ---- One token ----

  /** s reads w from position i on. */
  predicate Reads(s: string, i: nat, w: string) {
    i + |w| <= |s| && s[i..i + |w|] == w
  }

  /** The character behind a token does not go on with it. */
  predicate Ends(t: Token, c: char) {
    match t.kind
    case Quoted => c != '\''
    case Number => !IsDigit(c)
    case Sym(symbol) => (symbol == Gt || symbol == Lt) ==> c != '='
    case Name => !IsWordChar(c)
    case Kw(_) => !IsWordChar(c)
    case End => true
  }

  lemma ReadsAt(s: string, i: nat, w: string, k: nat)
    requires Reads(s, i, w) && k < |w|
    ensures s[i + k] == w[k]
  {
    assert s[i..i + |w|][k] == s[i + k];
  }

  lemma NextWord(s: string, i: nat, w: string)
    requires Reads(s, i, w) && IsWord(w) && !IsWordChar(At(s, i + |w|))
    ensures Next(s, i) == Emit(Token(WordKind(w), w), i + |w|)
  {
    ReadsAt(s, i, w, 0);
    var e := WordEnd(s, i);
    ReadsAt(s, i, w, if e < i + |w| then e - i else 0);
  }

  lemma NextNumeral(s: string, i: nat, w: string)
    requires Reads(s, i, w) && IsNumeral(w) && !IsDigit(At(s, i + |w|))
    ensures Next(s, i) == Emit(Token(Number, w), i + |w|)
  {
    ReadsAt(s, i, w, 0);
    if |w| > 1 {
      ReadsAt(s, i, w, 1);
    }
    var e := DigitsEnd(s, i + 1);
    ReadsAt(s, i, w, if e < i + |w| then e - i else 0);
  }

  lemma NextSymbol(s: string, i: nat, symbol: Symbol)
    requires Reads(s, i, SymbolText(symbol))
    requires (symbol == Gt || symbol == Lt) ==> At(s, i + 1) != '='
    ensures Next(s, i) == Emit(Token(Sym(symbol), SymbolText(symbol)), i + |SymbolText(symbol)|)
  {
    var w := SymbolText(symbol);
    ReadsAt(s, i, w, 0);
    if |w| > 1 {
      ReadsAt(s, i, w, 1);
    }
  }

  /** A quoted string ends at the first single quote, and its doubled quotes are halved. */
  lemma {:induction false} QuotedBack(s: string, i: nat, text: string, rest: string, before: string)
    requires i <= |s| && s[i..] == Writing.Doubled(text) + ("'" + rest) && NoNul(text)
    requires rest == "" || rest[0] != '\''
    ensures QuotedAt(s, i, before) == Some((before + text, i + |Writing.Doubled(text)| + 1))
    decreases |text|
  {
    var tail := "'" + rest;
    if text == "" {
      assert s[i] == s[i..][0] && (rest != "" ==> s[i + 1] == s[i..][1]);
      assert before + text == before;
    } else {
      var head := if text[0] == '\'' then "''" else [text[0]];
      var more := Writing.Doubled(text[1..]);
      assert s[i..] == head + (more + tail);
      assert s[i] == s[i..][0] && At(s, i + 1) == s[i..][1];
      assert s[i + |head|..] == s[i..][|head|..] == more + tail;
      QuotedBack(s, i + |head|, text[1..], rest, before + [text[0]]);
      assert (before + [text[0]]) + text[1..] == before + text;
    }
  }

  lemma NextQuoted(s: string, i: nat, text: string)
    requires Reads(s, i, Spell(Token(Quoted, text))) && NoNul(text)
    requires At(s, i + |Spell(Token(Quoted, text))|) != '\''
    ensures Next(s, i) == Emit(Token(Quoted, text), i + |Spell(Token(Quoted, text))|)
  {
    var w := Spell(Token(Quoted, text));
    ReadsAt(s, i, w, 0);
    var rest := s[i + |w|..];
    assert s[i + 1..] == w[1..] + rest;
    assert w[1..] + rest == Writing.Doubled(text) + ("'" + rest);
    QuotedBack(s, i + 1, text, rest, "");
    assert "" + text == text;
  }

  lemma NextProper(s: string, i: nat, t: Token)
    requires Reads(s, i, Spell(t)) && Proper(t) && Ends(t, At(s, i + |Spell(t)|))
    ensures Next(s, i) == Emit(t, i + |Spell(t)|)
  {
    match t.kind
    case Quoted => NextQuoted(s, i, t.lexeme);
    case Number => NextNumeral(s, i, t.lexeme);
    case Sym(symbol) => NextSymbol(s, i, symbol);
    case Name => NextWord(s, i, t.lexeme);
    case Kw(_) => NextWord(s, i, t.lexeme);
  }

  // ---- All tokens ----

  const END: Token := Token(End, "")

  lemma Suffix(s: string, i: nat, w: string, rest: string)
    requires i <= |s| && s[i..] == w + (" " + rest)
    ensures Reads(s, i, w) && i + |w| < |s| && s[i + |w|] == ' ' && s[i + |w| + 1..] == rest
  {
    var tail := s[i..];
    assert |s| == i + |w| + 1 + |rest|;
    assert s[i..i + |w|] == tail[..|w|] && s[i + |w|] == tail[|w|] && s[i + |w| + 1..] == tail[|w| + 1..];
  }

  /** A token, then a blank, then the rest from position j on. */
  lemma LexEmit(s: string, i: nat, t: Token, text: string) returns (j: nat)
    requires i <= |s| && s[i..] == Spell(t) + (" " + text) && Proper(t)
    ensures i < j <= |s| && s[j..] == text
    ensures Lex(s, j).Some? ==> Lex(s, i) == Some([t] + Lex(s, j).value)
  {
    j := i + |Spell(t)| + 1;
    Suffix(s, i, Spell(t), text);
    NextProper(s, i, t);
    assert Next(s, j - 1) == Skip(j);
  }

  lemma LexEnd(s: string, i: nat)
    requires i == |s|
    ensures Lex(s, i) == Some([END])
  {
  }

  lemma WithEnd(ts: seq<Token>)
    requires ts != []
    ensures [ts[0]] + (ts[1..] + [END]) == ts + [END]
  {
  }

  lemma {:induction false} LexSpelled(s: string, i: nat, ts: seq<Token>)
    requires i <= |s| && s[i..] == SpellAll(ts) && AllProper(ts)
    ensures Lex(s, i) == Some(ts + [END])
    decreases |ts|
  {
    if ts == [] {
      LexEnd(s, i);
      assert ts + [END] == [END];
    } else {
      var j := LexEmit(s, i, ts[0], SpellAll(ts[1..]));
      LexSpelled(s, j, ts[1..]);
      WithEnd(ts);
    }
  }

  lemma FirstCharacter(t: Token)
    requires Proper(t)
    ensures Spell(t) != "" && Spell(t)[0] < 0x80 as char
  {
  }

  /** Proper tokens are read back from their spelling. */
  lemma SpelledTokensAreReadBack(ts: seq<Token>)
    requires AllProper(ts)
    ensures LexText(SpellAll(ts)) == Some(ts + [END])
  {
    var s := SpellAll(ts);
    if ts != [] {
      FirstCharacter(ts[0]);
      assert s[0] == Spell(ts[0])[0];
    }
    LexSpelled(s, 0, ts);
  }

  // ---- What the tokenizer produces ----

  lemma {:induction false} QuotedHasNoNul(s: string, i: nat, text: string)
    requires i <= |s| && NoNul(text) && QuotedAt(s, i, text).Some?
    ensures NoNul(QuotedAt(s, i, text).value.0)
    decreases |s| - i
  {
    if s[i] != '\'' {
      QuotedHasNoNul(s, i + 1, text + [s[i]]);
    } else if At(s, i + 1) == '\'' {
      QuotedHasNoNul(s, i + 2, text + "'");
    }
  }

  lemma WordIsLexeme(s: string, i: nat)
    requires i < |s| && IsWordStart(s[i])
    ensures IsWord(s[i..WordEnd(s, i)])
  {
    var w := s[i..WordEnd(s, i)];
    assert forall k :: 0 <= k < |w| ==> w[k] == s[i + k];
  }

  lemma NumeralIsLexeme(s: string, i: nat)
    requires i < |s| && StartsNumber(s, i) && !IsWordStart(s[i])
    ensures IsNumeral(s[i..DigitsEnd(s, i + 1)])
  {
    var w := s[i..DigitsEnd(s, i + 1)];
    assert forall k :: 0 <= k < |w| ==> w[k] == s[i + k];
    assert s[i] == '-' ==> IsDigit(s[i + 1]);
  }

  lemma EmittedIsProper(s: string, i: nat)
    requires i <= |s| && Next(s, i).Emit?
    ensures Proper(Next(s, i).token)
  {
    var c, token := At(s, i), Next(s, i).token;
    if IsWordStart(c) {
      WordIsLexeme(s, i);
    } else if StartsNumber(s, i) {
      NumeralIsLexeme(s, i);
    } else if c == '\'' {
      QuotedHasNoNul(s, i + 1, "");
    }
  }

  /** The tokenizer produces proper tokens and one end token, last. */
  lemma {:induction false} TokensAreProper(s: string, i: nat) returns (ts: seq<Token>)
    requires i <= |s| && Lex(s, i).Some?
    ensures Lex(s, i) == Some(ts + [END]) && AllProper(ts)
    decreases |s| - i
  {
    match Next(s, i)
    case Stop =>
      ts := [];
      assert [] + [END] == [END];
    case Skip(to) =>
      ts := TokensAreProper(s, to);
    case Emit(token, to) =>
      EmittedIsProper(s, i);
      var rest := TokensAreProper(s, to);
      ts := [token] + rest;
      assert ts[1..] == rest;
      assert [token] + (rest + [END]) == ts + [END];
  }

  /** Layout and comments carry no meaning: spelling the tokens of a text and reading that gives the same tokens. */
  lemma SpellingKeepsTokens(s: string) returns (ts: seq<Token>)
    requires LexText(s).Some?
    ensures LexText(s) == Some(ts + [END]) && LexText(SpellAll(ts)) == LexText(s)
  {
    ts := TokensAreProper(s, TextStart(s));
    SpelledTokensAreReadBack(ts);
  }
}
