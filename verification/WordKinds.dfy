/**
  The words of a text as the parser meets them: their kinds, and where they stand.
 */
module WordKinds {
  import opened Numbers
  import opened Lexer
  import opened LexerProofs
  import opened Writing
  import opened Layout
  import opened Parser

  // ---- The kinds of words ----

  function KeywordText(k: Keyword): string {
    match k
    case InsertWord => "INSERT"
    case IntoWord => "INTO"
    case ValuesWord => "VALUES"
    case SelectWord => "SELECT"
    case FromWord => "FROM"
    case WhereWord => "WHERE"
  }

  /** A word is a keyword exactly when it has its letters, in any case. */
  lemma KeywordIff(w: string, k: Keyword)
    ensures WordKind(w) == Kw(k) <==> SameLetters(w, KeywordText(k))
  {
    SameNameIff(w, "INSERT");
    SameNameIff(w, "INTO");
    SameNameIff(w, "VALUES");
    SameNameIff(w, "SELECT");
    SameNameIff(w, "FROM");
    SameNameIff(w, "WHERE");
  }

  lemma KeywordIsName(w: string, k: Keyword)
    requires SameLetters(w, KeywordText(k))
    ensures Reserved(w) && NameText(w)
  {
    ReservedIsText(w);
  }

  lemma NotName(w: string)
    requires NumeralText(w) || SymbolWord(w)
    ensures !NameStart(w[0])
  {
  }

  lemma NameKind(w: Word)
    requires WordFits(w)
    ensures TokenOf(w).kind == Name <==> w.Bare? && PlainName(w.text)
  {
    if w.Bare? {
      ReservedIff(w.text);
      if Reserved(w.text) {
        ReservedIsText(w.text);
      } else if !PlainName(w.text) {
        NotName(w.text);
      }
    }
  }

  lemma KeywordKind(w: Word, k: Keyword)
    requires WordFits(w)
    ensures TokenOf(w).kind == Kw(k) <==> w.Bare? && SameLetters(w.text, KeywordText(k))
  {
    if w.Bare? {
      KeywordIff(w.text, k);
      if SameLetters(w.text, KeywordText(k)) {
        KeywordIsName(w.text, k);
      }
    }
  }

  lemma SymbolKind(w: Word, symbol: Symbol)
    requires WordFits(w)
    ensures TokenOf(w).kind == Sym(symbol) <==> w.Bare? && w.text == SymbolText(symbol)
  {
    SymbolTextFits(symbol);
    if w.Bare? {
      if SymbolWord(w.text) {
        SymbolIsSpelled(w.text);
      } else if NumeralText(w.text) {
        assert Digit(w.text[0]) || w.text[0] == '-';
      } else if Reserved(w.text) {
        ReservedIsText(w.text);
      }
    }
  }

  lemma LiteralKind(w: Word)
    requires WordFits(w)
    ensures IsLiteral(TokenOf(w).kind) <==> LiteralFits(w)
  {
    NameKind(w);
    if w.Bare? {
      if NumeralText(w.text) {
        assert Digit(w.text[0]) || w.text[0] == '-';
      } else if Reserved(w.text) {
        ReservedIsText(w.text);
      } else if SymbolWord(w.text) {
        SymbolIsSpelled(w.text);
      }
    }
  }

  lemma LexemeIsText(w: Word)
    ensures TokenOf(w).lexeme == w.text && TokenOf(w).kind != End
  {
    if w.Bare? && w.text != "" && NameStart(w.text[0]) {
      ReservedIff(w.text);
    }
  }

  // ---- Words at positions ----

  /** The tokens of a text of these words. */
  function ReadAs(words: seq<Word>): (ts: seq<Token>)
    ensures |ts| == |words| + 1
  {
    if words == [] then [END] else [TokenOf(words[0])] + ReadAs(words[1..])
  }

  lemma {:induction false} ReadAsTokens(words: seq<Word>)
    ensures ReadAs(words) == TokensOf(words) + [END]
  {
    if words == [] {
      assert TokensOf(words) + [END] == [END];
    } else {
      ReadAsTokens(words[1..]);
      FirstToken(words);
    }
  }

  /** The words of part are those from i on, and end is behind them. */
  ghost predicate Stand(words: seq<Word>, i: nat, part: seq<Word>, end: nat) {
    i <= end <= |words| && words[i..end] == part
  }

  lemma StandSplit(words: seq<Word>, i: nat, a: seq<Word>, b: seq<Word>, end: nat) returns (mid: nat)
    requires Stand(words, i, a + b, end)
    ensures Stand(words, i, a, mid) && Stand(words, mid, b, end)
  {
    mid := i + |a|;
    assert words[i..mid] == words[i..end][..|a|] && words[mid..end] == words[i..end][|a|..];
  }

  lemma StandJoin(words: seq<Word>, i: nat, a: seq<Word>, mid: nat, b: seq<Word>, end: nat)
    requires Stand(words, i, a, mid) && Stand(words, mid, b, end)
    ensures Stand(words, i, a + b, end)
  {
  }

  /** Five parts, one behind the other. */
  lemma StandFive(words: seq<Word>, i: nat, a: seq<Word>, b: seq<Word>, c: seq<Word>, d: seq<Word>, e: seq<Word>,
                  end: nat)
    returns (p: nat, q: nat, r: nat, s: nat)
    requires Stand(words, i, a + (b + (c + (d + e))), end)
    ensures Stand(words, i, a, p) && Stand(words, p, b, q) && Stand(words, q, c, r) && Stand(words, r, d, s)
    ensures Stand(words, s, e, end)
  {
    p := StandSplit(words, i, a, b + (c + (d + e)), end);
    q := StandSplit(words, p, b, c + (d + e), end);
    r := StandSplit(words, q, c, d + e, end);
    s := StandSplit(words, r, d, e, end);
  }

  lemma JoinFive(words: seq<Word>, i: nat, a: seq<Word>, p: nat, b: seq<Word>, q: nat, c: seq<Word>, r: nat,
                 d: seq<Word>, s: nat, e: seq<Word>, end: nat)
    requires Stand(words, i, a, p) && Stand(words, p, b, q) && Stand(words, q, c, r) && Stand(words, r, d, s)
    requires Stand(words, s, e, end)
    ensures Stand(words, i, a + (b + (c + (d + e))), end)
  {
    StandJoin(words, r, d, s, e, end);
    StandJoin(words, q, c, r, d + e, end);
    StandJoin(words, p, b, q, c + (d + e), end);
    StandJoin(words, i, a, p, b + (c + (d + e)), end);
  }

  lemma WordAt(words: seq<Word>, i: nat)
    ensures KindAt(ReadAs(words), i) == if i < |words| then TokenOf(words[i]).kind else End
    ensures i < |words| ==> LexemeAt(ReadAs(words), i) == words[i].text
  {
    ReadAsTokens(words);
    if i < |words| {
      LexemeIsText(words[i]);
      assert ReadAs(words)[i] == TokensOf(words)[i];
    }
  }

  lemma StandAt(words: seq<Word>, i: nat, part: seq<Word>, end: nat, k: nat)
    requires Stand(words, i, part, end) && k < |part|
    ensures words[i + k] == part[k] && end == i + |part|
    ensures KindAt(ReadAs(words), i + k) == TokenOf(part[k]).kind
    ensures LexemeAt(ReadAs(words), i + k) == part[k].text
  {
    assert words[i..end][k] == words[i + k];
    WordAt(words, i + k);
  }

  lemma StandOne(words: seq<Word>, i: nat, w: Word, end: nat)
    requires Stand(words, i, [w], end)
    ensures KindAt(ReadAs(words), i) == TokenOf(w).kind && LexemeAt(ReadAs(words), i) == w.text && end == i + 1
  {
    StandAt(words, i, [w], end, 0);
  }
}
