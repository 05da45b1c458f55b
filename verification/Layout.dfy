/**
  The tokenizer against the written language: it reads exactly the texts that are laid
  out from words, blanks and comments, and finds exactly those words.
 */
module Layout {
  import opened Text
  import opened Sequences
  import opened RowLog
  import opened Numbers
  import opened Lexer
  import opened LexerProofs
  import opened Writing

  // ---- The token of a word ----

  function SymbolOf(w: string): Symbol {
    if w == "," then Comma
    else if w == "." then Dot
    else if w == "(" then LParen
    else if w == ")" then RParen
    else if w == ";" then Semicolon
    else if w == "*" then Star
    else if w == "=" then Eq
    else if w == ">" then Gt
    else if w == ">=" then Ge
    else if w == "<" then Lt
    else Le
  }

  function TokenOf(w: Word): Token {
    match w
    case InQuotes(x) => Token(Quoted, x)
    case Bare(x) =>
      if x != "" && NameStart(x[0]) then Token(WordKind(x), x)
      else if x != "" && (Digit(x[0]) || x[0] == '-') then Token(Number, x)
      else Token(Sym(SymbolOf(x)), x)
  }

  function TokensOf(ws: seq<Word>): seq<Token> {
    seq(|ws|, i requires 0 <= i < |ws| => TokenOf(ws[i]))
  }

  lemma ReservedIff(w: string)
    ensures WordKind(w) == Name <==> !Reserved(w)
  {
    SameNameIff(w, "INSERT");
    SameNameIff(w, "INTO");
    SameNameIff(w, "VALUES");
    SameNameIff(w, "SELECT");
    SameNameIff(w, "FROM");
    SameNameIff(w, "WHERE");
  }

  predicate AllLetters(w: string) {
    forall k :: 0 <= k < |w| ==> Letter(w[k])
  }

  lemma SameLettersAreLetters(w: string, v: string)
    requires SameLetters(w, v) && AllLetters(v) && v != ""
    ensures NameText(w)
  {
    forall k | 0 <= k < |w| ensures Letter(w[k]) {
      assert SameLetter(w[k], v[k]) && Letter(v[k]);
    }
  }

  lemma ReservedIsText(w: string)
    requires Reserved(w)
    ensures NameText(w)
  {
    if SameLetters(w, "INSERT") {
      SameLettersAreLetters(w, "INSERT");
    } else if SameLetters(w, "INTO") {
      SameLettersAreLetters(w, "INTO");
    } else if SameLetters(w, "VALUES") {
      SameLettersAreLetters(w, "VALUES");
    } else if SameLetters(w, "SELECT") {
      SameLettersAreLetters(w, "SELECT");
    } else if SameLetters(w, "FROM") {
      SameLettersAreLetters(w, "FROM");
    } else {
      SameLettersAreLetters(w, "WHERE");
    }
  }

  lemma WordsAreNames(w: string)
    ensures NameText(w) <==> IsWord(w)
  {
  }

  lemma NumeralIff(w: string)
    ensures NumeralText(w) <==> IsNumeral(w)
  {
    if w != "" {
      assert forall k :: 1 <= k < |w| ==> w[k] == w[1..][k - 1];
    }
  }

  lemma SymbolIsSpelled(w: string)
    requires SymbolWord(w)
    ensures SymbolText(SymbolOf(w)) == w && !NameStart(w[0]) && !Digit(w[0]) && w[0] != '-'
    ensures SymbolOf(w) == Gt <==> w == ">"
    ensures SymbolOf(w) == Lt <==> w == "<"
  {
  }

  /** A word is the spelling of its token. */
  lemma WordIsProper(w: Word)
    requires WordFits(w)
    ensures Proper(TokenOf(w)) && Spell(TokenOf(w)) == WordText(w) && WordText(w) != ""
  {
    if w.Bare? {
      if NameText(w.text) {
        WordsAreNames(w.text);
      } else if NumeralText(w.text) {
        NumeralIff(w.text);
      } else if Reserved(w.text) {
        ReservedIsText(w.text);
      } else {
        SymbolIsSpelled(w.text);
      }
    }
  }

  function First(rest: string): char {
    if rest == "" then '\0' else rest[0]
  }

  lemma ClosedEnds(w: Word, rest: string)
    requires WordFits(w) && Closed(w, rest)
    ensures Ends(TokenOf(w), First(rest))
  {
    WordIsProper(w);
    if w.Bare? && SymbolWord(w.text) {
      SymbolIsSpelled(w.text);
    }
  }

  lemma Behind(s: string, i: nat, w: string, rest: string)
    requires i <= |s| && s[i..] == w + rest
    ensures Reads(s, i, w) && s[i + |w|..] == rest && At(s, i + |w|) == First(rest)
  {
    var tail := s[i..];
    assert s[i..i + |w|] == tail[..|w|] && s[i + |w|..] == tail[|w|..];
    if rest != "" {
      assert s[i + |w|] == s[i + |w|..][0];
    }
  }

  /** One step of the tokenizer at a word. */
  lemma WordStep(s: string, i: nat, w: Word, rest: string) returns (to: nat)
    requires i <= |s| && s[i..] == WordText(w) + rest && WordFits(w) && Closed(w, rest)
    ensures i < to <= |s| && s[to..] == rest && Next(s, i) == Emit(TokenOf(w), to)
  {
    Behind(s, i, WordText(w), rest);
    WordIsProper(w);
    ClosedEnds(w, rest);
    NextProper(s, i, TokenOf(w));
    to := i + |WordText(w)|;
  }

  // ---- Gaps ----

  lemma {:induction false} LineCommentIs(s: string, i: nat, text: string, rest: string)
    requires i <= |s| && s[i..] == text + rest && First(rest) in {'\n', '\0'}
    requires forall k :: 0 <= k < |text| ==> text[k] != '\n' && text[k] != '\0'
    ensures LineCommentEnd(s, i) == i + |text|
    decreases |text|
  {
    Behind(s, i, text, rest);
    if text != "" {
      assert s[i] == s[i..][0] == text[0];
      assert s[i + 1..] == s[i..][1..] == text[1..] + rest;
      LineCommentIs(s, i + 1, text[1..], rest);
    }
  }

  lemma {:induction false} BlockCommentIs(s: string, i: nat, text: string, rest: string)
    requires i <= |s| && s[i..] == text + ("*/" + rest) && NoNul(text)
    requires forall k :: 0 <= k < |text| - 1 ==> !(text[k] == '*' && text[k + 1] == '/')
    ensures BlockCommentEnd(s, i) == Some(i + |text| + 2)
    decreases |text|
  {
    assert At(s, i) == s[i..][0] && At(s, i + 1) == s[i..][1];
    if text != "" {
      assert s[i + 1..] == s[i..][1..] == text[1..] + ("*/" + rest);
      assert forall k :: 0 <= k < |text[1..]| ==> text[1..][k] == text[k + 1];
      BlockCommentIs(s, i + 1, text[1..], rest);
    }
  }

  lemma TwoMarks(s: string, i: nat, mark: string, rest: string)
    requires |mark| == 2 && i <= |s| && s[i..] == mark + rest
    ensures i + 2 <= |s| && At(s, i) == mark[0] && At(s, i + 1) == mark[1] && s[i + 2..] == rest
  {
    Behind(s, i, mark, rest);
    assert s[i] == s[i..][0] && s[i + 1] == s[i..][1];
  }

  /** One step of the tokenizer at a blank or a comment. */
  lemma FillerStep(s: string, i: nat, f: Filler, rest: string) returns (to: nat)
    requires i <= |s| && s[i..] == FillerText(f) + rest && FillerFits(f, rest)
    ensures i < to <= |s| && s[to..] == rest && Next(s, i) == Skip(to)
  {
    Behind(s, i, FillerText(f), rest);
    to := i + |FillerText(f)|;
    match f
    case Space(c) =>
      assert s[i] == s[i..][0];
    case LineComment(text) =>
      AppendAssoc("--", text, rest);
      TwoMarks(s, i, "--", text + rest);
      LineCommentIs(s, i + 2, text, rest);
    case BlockComment(text) =>
      AppendAssoc("/*", text + "*/", rest);
      AppendAssoc(text, "*/", rest);
      TwoMarks(s, i, "/*", text + ("*/" + rest));
      BlockCommentIs(s, i + 2, text, rest);
  }

  lemma LexSkips(s: string, i: nat, to: nat)
    requires i < to <= |s| && Next(s, i) == Skip(to)
    ensures Lex(s, i) == Lex(s, to)
  {
  }

  lemma LexEmits(s: string, i: nat, t: Token, to: nat, rest: seq<Token>)
    requires i < to <= |s| && Next(s, i) == Emit(t, to) && Lex(s, to) == Some(rest)
    ensures Lex(s, i) == Some([t] + rest)
  {
  }

  lemma {:induction false} GapSteps(s: string, i: nat, gap: Gap, rest: string) returns (to: nat)
    requires i <= |s| && s[i..] == GapText(gap) + rest && GapFits(gap, rest)
    ensures i <= to <= |s| && s[to..] == rest && Lex(s, i) == Lex(s, to)
    decreases |gap|
  {
    if gap == [] {
      to := i;
      assert "" + rest == rest;
    } else {
      AppendAssoc(FillerText(gap[0]), GapText(gap[1..]), rest);
      var mid := FillerStep(s, i, gap[0], GapText(gap[1..]) + rest);
      LexSkips(s, i, mid);
      to := GapSteps(s, mid, gap[1..], rest);
    }
  }

  // ---- Whole texts ----

  lemma FirstToken(words: seq<Word>)
    requires words != []
    ensures [TokenOf(words[0])] + (TokensOf(words[1..]) + [END]) == TokensOf(words) + [END]
  {
  }

  lemma {:induction false} LaidIsRead(s: string, i: nat, words: seq<Word>, gaps: seq<Gap>, junk: string)
    requires |gaps| == |words| + 1 && LaidWell(words, gaps, junk)
    requires i <= |s| && s[i..] == Laid(words, gaps, junk)
    ensures Lex(s, i) == Some(TokensOf(words) + [END])
    decreases |words|
  {
    if words == [] {
      var at := GapSteps(s, i, gaps[0], junk);
      JunkStops(s, at, junk);
      assert TokensOf(words) + [END] == [END];
    } else {
      var rest := Laid(words[1..], gaps[1..], junk);
      var at := GapSteps(s, i, gaps[0], WordText(words[0]) + rest);
      var to := WordStep(s, at, words[0], rest);
      LaidIsRead(s, to, words[1..], gaps[1..], junk);
      LexEmits(s, at, TokenOf(words[0]), to, TokensOf(words[1..]) + [END]);
      FirstToken(words);
    }
  }

  lemma JunkStops(s: string, i: nat, junk: string)
    requires i <= |s| && s[i..] == junk && (junk == "" || junk[0] == '\0')
    ensures Lex(s, i) == Some([END])
  {
    if junk != "" {
      assert s[i] == s[i..][0];
    }
  }

  lemma ForeignStart(s: string)
    requires At(s, 0) == 0xEF as char
    ensures Lex(s, 0) == None
  {
    assert Next(s, 0) == Bad;
  }

  lemma MarkIsPassed(s: string, mark: string, text: string)
    requires IsMark(mark) && s == mark + text && Lex(s, |mark|).Some?
    ensures TextStart(s) == |mark|
  {
    if mark == "" {
      if At(s, 0) == 0xEF as char {
        ForeignStart(s);
      }
    } else {
      assert s[0] == mark[0] && s[1] == mark[1] && s[2] == mark[2];
    }
  }

  /** A text made of words is read as exactly these words. */
  lemma WordsAreRead(s: string, words: seq<Word>)
    requires MadeOf(s, words)
    ensures LexText(s) == Some(TokensOf(words) + [END])
  {
    var mark, gaps, junk :|
      IsMark(mark) && |gaps| == |words| + 1 && LaidWell(words, gaps, junk) && s == mark + Laid(words, gaps, junk);
    assert s[|mark|..] == Laid(words, gaps, junk);
    LaidIsRead(s, |mark|, words, gaps, junk);
    MarkIsPassed(s, mark, Laid(words, gaps, junk));
  }

  // ---- Every text that is read is laid out so ----

  lemma {:induction false} LineCommentText(s: string, i: nat)
    requires i <= |s|
    ensures var e := LineCommentEnd(s, i);
      && (forall k :: i <= k < e ==> s[k] != '\n' && s[k] != '\0')
      && (e < |s| ==> s[e] == '\n' || s[e] == '\0')
    decreases |s| - i
  {
    if At(s, i) != '\0' && s[i] != '\n' {
      LineCommentText(s, i + 1);
    }
  }

  lemma {:induction false} BlockCommentText(s: string, i: nat, e: nat)
    requires i <= |s| && BlockCommentEnd(s, i) == Some(e)
    ensures i + 2 <= e <= |s| && s[e - 2] == '*' && s[e - 1] == '/'
    ensures forall k :: i <= k < e - 2 ==> s[k] != '\0' && !(s[k] == '*' && s[k + 1] == '/')
    decreases |s| - i
  {
    if !(s[i] == '*' && At(s, i + 1) == '/') {
      BlockCommentText(s, i + 1, e);
    }
  }

  lemma Cut(s: string, i: nat, m: nat, e: nat)
    requires i <= m <= e <= |s|
    ensures s[i..] == s[i..e] + s[e..] && s[i..e] == s[i..m] + s[m..e]
  {
  }

  lemma LineCommentIsFiller(s: string, i: nat, to: nat) returns (f: Filler)
    requires i + 2 <= |s| && s[i] == '-' && s[i + 1] == '-' && to == LineCommentEnd(s, i + 2)
    ensures i < to <= |s| && s[i..] == FillerText(f) + s[to..] && FillerFits(f, s[to..])
  {
    f := LineComment(s[i + 2..to]);
    LineCommentText(s, i + 2);
    RestStarts(s, to);
    Cut(s, i, i + 2, to);
    assert s[i..i + 2] == "--";
    assert forall k :: 0 <= k < |f.text| ==> f.text[k] == s[i + 2 + k];
  }

  lemma BlockCommentIsFiller(s: string, i: nat, to: nat) returns (f: Filler)
    requires i + 2 <= |s| && s[i] == '/' && s[i + 1] == '*' && BlockCommentEnd(s, i + 2) == Some(to)
    ensures i < to <= |s| && s[i..] == FillerText(f) + s[to..] && FillerFits(f, s[to..])
  {
    BlockCommentText(s, i + 2, to);
    f := BlockComment(s[i + 2..to - 2]);
    Cut(s, i, i + 2, to);
    Cut(s, i + 2, to - 2, to);
    assert s[i..i + 2] == "/*" && s[to - 2..to] == "*/";
    assert forall k :: 0 <= k < |f.text| ==> f.text[k] == s[i + 2 + k];
  }

  /** What the tokenizer passes over is a blank or a comment. */
  lemma SkipIsFiller(s: string, i: nat, to: nat) returns (f: Filler)
    requires i <= |s| && Next(s, i) == Skip(to)
    ensures i < to <= |s| && s[i..] == FillerText(f) + s[to..] && FillerFits(f, s[to..])
  {
    if IsSpace(s[i]) {
      f := Space(s[i]);
      Cut(s, i, i, to);
      assert s[i..to] == [s[i]];
    } else if s[i] == '-' {
      f := LineCommentIsFiller(s, i, to);
    } else {
      f := BlockCommentIsFiller(s, i, to);
    }
  }

  /** A quoted string is its text with every quote doubled. */
  lemma {:induction false} QuotedText(s: string, i: nat, before: string, text: string, e: nat) returns (t: string)
    requires i <= |s| && QuotedAt(s, i, before) == Some((text, e))
    ensures i < e <= |s| && text == before + t && s[i..e] == Doubled(t) + "'" && NoNul(t)
    ensures e < |s| ==> s[e] != '\''
    decreases |s| - i
  {
    if s[i] != '\'' {
      t := QuotedText(s, i + 1, before + [s[i]], text, e);
      Cut(s, i, i + 1, e);
      OneMoreChar(s[i], t, before, [s[i]]);
      t := [s[i]] + t;
    } else if At(s, i + 1) == '\'' {
      t := QuotedText(s, i + 2, before + "'", text, e);
      Cut(s, i, i + 2, e);
      assert s[i..i + 2] == "''";
      OneMoreChar('\'', t, before, "''");
      t := "'" + t;
    } else {
      t := "";
      assert s[i..e] == "'" && before + "" == before && Doubled("") + "'" == "'";
    }
  }

  lemma OneMoreChar(c: char, t: string, before: string, written: string)
    requires written == if c == '\'' then "''" else [c]
    ensures (before + [c]) + t == before + ([c] + t)
    ensures Doubled([c] + t) == written + Doubled(t)
    ensures Doubled([c] + t) + "'" == written + (Doubled(t) + "'")
  {
    assert ([c] + t)[1..] == t;
  }

  lemma RestStarts(s: string, to: nat)
    requires to <= |s|
    ensures s[to..] == "" <==> to == |s|
    ensures to < |s| ==> s[to..][0] == s[to] == At(s, to)
  {
  }

  lemma NameTextAt(s: string, i: nat, to: nat)
    requires i < to <= |s| && IsWordStart(s[i]) && to == WordEnd(s, i)
    ensures NameText(s[i..to]) && s[i..to][0] == s[i]
  {
    assert forall k :: 0 <= k < to - i ==> s[i..to][k] == s[i + k];
  }

  lemma NameIsWord(s: string, i: nat, to: nat) returns (w: Word)
    requires i < to <= |s| && IsWordStart(s[i]) && to == WordEnd(s, i)
    ensures s[i..] == WordText(w) + s[to..] && WordFits(w) && Closed(w, s[to..])
    ensures TokenOf(w) == Token(WordKind(s[i..to]), s[i..to])
  {
    w := Bare(s[i..to]);
    Cut(s, i, i, to);
    RestStarts(s, to);
    NameTextAt(s, i, to);
  }

  lemma NumberIsWord(s: string, i: nat, to: nat) returns (w: Word)
    requires i < |s| && StartsNumber(s, i) && !IsWordStart(s[i]) && to == DigitsEnd(s, i + 1)
    ensures i < to <= |s| && s[i..] == WordText(w) + s[to..] && WordFits(w) && Closed(w, s[to..])
    ensures TokenOf(w) == Token(Number, s[i..to])
  {
    w := Bare(s[i..to]);
    Cut(s, i, i, to);
    RestStarts(s, to);
    assert w.text[0] == s[i];
    assert forall k :: 0 <= k < |w.text| ==> w.text[k] == s[i + k];
    assert s[i] == '-' ==> to > i + 1;
    NumeralIff(w.text);
  }

  lemma QuoteIsWord(s: string, i: nat, text: string, to: nat) returns (w: Word)
    requires i < |s| && s[i] == '\'' && QuotedAt(s, i + 1, "") == Some((text, to))
    ensures i < to <= |s| && s[i..] == WordText(w) + s[to..] && WordFits(w) && Closed(w, s[to..])
    ensures TokenOf(w) == Token(Quoted, text)
  {
    var t := QuotedText(s, i + 1, "", text, to);
    assert "" + t == t;
    w := InQuotes(t);
    Cut(s, i, i + 1, to);
    RestStarts(s, to);
    assert s[i..i + 1] == "'";
  }

  lemma SymbolRead(s: string, i: nat, symbol: Symbol, n: nat)
    requires i < |s| && SymbolAt(s, i) == Some((symbol, n))
    ensures 1 <= n <= |s| - i && s[i..i + n] == SymbolText(symbol)
    ensures (symbol == Gt || symbol == Lt) ==> At(s, i + n) != '='
  {
  }

  lemma SymbolTextFits(symbol: Symbol)
    ensures SymbolWord(SymbolText(symbol)) && SymbolOf(SymbolText(symbol)) == symbol
  {
  }

  lemma SymbolIsWord(s: string, i: nat, symbol: Symbol, n: nat) returns (w: Word)
    requires i < |s| && SymbolAt(s, i) == Some((symbol, n))
    ensures 1 <= n <= |s| - i && s[i..] == WordText(w) + s[i + n..] && WordFits(w) && Closed(w, s[i + n..])
    ensures TokenOf(w) == Token(Sym(symbol), s[i..i + n])
  {
    SymbolRead(s, i, symbol, n);
    SymbolTextFits(symbol);
    SymbolIsSpelled(SymbolText(symbol));
    w := Bare(SymbolText(symbol));
    Cut(s, i, i, i + n);
    RestStarts(s, i + n);
  }

  /** What the tokenizer takes is a word, and it is closed. */
  lemma EmitIsWord(s: string, i: nat, t: Token, to: nat) returns (w: Word)
    requires i <= |s| && Next(s, i) == Emit(t, to)
    ensures i < to <= |s| && s[i..] == WordText(w) + s[to..] && WordFits(w) && Closed(w, s[to..]) && TokenOf(w) == t
  {
    if IsWordStart(s[i]) {
      w := NameIsWord(s, i, to);
    } else if StartsNumber(s, i) {
      w := NumberIsWord(s, i, to);
    } else if s[i] == '\'' {
      w := QuoteIsWord(s, i, QuotedAt(s, i + 1, "").value.0, to);
    } else {
      w := SymbolIsWord(s, i, SymbolAt(s, i).value.0, SymbolAt(s, i).value.1);
    }
  }

  lemma MoreFiller(f: Filler, words: seq<Word>, gaps: seq<Gap>, junk: string) returns (all: seq<Gap>)
    requires |gaps| == |words| + 1 && LaidWell(words, gaps, junk) && FillerFits(f, Laid(words, gaps, junk))
    ensures |all| == |words| + 1 && LaidWell(words, all, junk)
    ensures Laid(words, all, junk) == FillerText(f) + Laid(words, gaps, junk)
  {
    all := [[f] + gaps[0]] + gaps[1..];
    var rest := if words == [] then junk else WordText(words[0]) + Laid(words[1..], gaps[1..], junk);
    assert all[0][1..] == gaps[0] && all[1..] == gaps[1..];
    AppendAssoc(FillerText(f), GapText(gaps[0]), rest);
    assert Laid(words, gaps, junk) == GapText(gaps[0]) + rest;
  }

  lemma MoreWords(w: Word, words: seq<Word>, gaps: seq<Gap>, junk: string) returns (all: seq<Word>, more: seq<Gap>)
    requires |gaps| == |words| + 1 && LaidWell(words, gaps, junk) && WordFits(w) && Closed(w, Laid(words, gaps, junk))
    ensures all == [w] + words && |more| == |all| + 1 && LaidWell(all, more, junk)
    ensures Laid(all, more, junk) == WordText(w) + Laid(words, gaps, junk)
  {
    all, more := [w] + words, [[]] + gaps;
    assert all[1..] == words && more[1..] == gaps;
    assert "" + (WordText(w) + Laid(words, gaps, junk)) == WordText(w) + Laid(words, gaps, junk);
  }

  lemma {:induction false} ReadIsLaid(s: string, i: nat) returns (words: seq<Word>, gaps: seq<Gap>, junk: string)
    requires i <= |s| && Lex(s, i).Some?
    ensures |gaps| == |words| + 1 && LaidWell(words, gaps, junk) && s[i..] == Laid(words, gaps, junk)
    ensures Lex(s, i) == Some(TokensOf(words) + [END])
    decreases |s| - i
  {
    match Next(s, i)
    case Stop =>
      words, gaps, junk := [], [[]], s[i..];
      assert "" + junk == junk && TokensOf([]) + [END] == [END];
    case Skip(to) =>
      var f := SkipIsFiller(s, i, to);
      words, gaps, junk := ReadIsLaid(s, to);
      LexSkips(s, i, to);
      gaps := MoreFiller(f, words, gaps, junk);
    case Emit(t, to) =>
      var w := EmitIsWord(s, i, t, to);
      words, gaps, junk := ReadIsLaid(s, to);
      LexEmits(s, i, t, to, TokensOf(words) + [END]);
      words, gaps := MoreWords(w, words, gaps, junk);
      FirstToken(words);
  }

  lemma StartIsMark(s: string)
    ensures IsMark(s[..TextStart(s)]) && s == s[..TextStart(s)] + s[TextStart(s)..]
  {
  }

  lemma WordsOfRead(s: string) returns (words: seq<Word>)
    requires LexText(s).Some?
    ensures MadeOf(s, words) && LexText(s) == Some(TokensOf(words) + [END])
  {
    var gaps, junk;
    words, gaps, junk := ReadIsLaid(s, TextStart(s));
    StartIsMark(s);
  }

  /** The tokenizer reads exactly the texts made of words, and finds the words they are made of. */
  lemma ReadIffMadeOfWords(s: string, ts: seq<Token>)
    ensures LexText(s) == Some(ts) <==> exists words :: MadeOf(s, words) && ts == TokensOf(words) + [END]
  {
    if LexText(s) == Some(ts) {
      var words := WordsOfRead(s);
    }
    if words :| MadeOf(s, words) && ts == TokensOf(words) + [END] {
      WordsAreRead(s, words);
    }
  }

  /** All words of a text fit. */
  lemma {:induction false} LaidFits(words: seq<Word>, gaps: seq<Gap>, junk: string)
    requires |gaps| == |words| + 1 && LaidWell(words, gaps, junk)
    ensures forall i :: 0 <= i < |words| ==> WordFits(words[i])
  {
    if words != [] {
      LaidFits(words[1..], gaps[1..], junk);
      assert forall i :: 0 < i < |words| ==> words[i] == words[1..][i - 1];
    }
  }
}
