/**
  The recursive-descent parser: what each rule accepts as a function of the token list
  and a position, and the parser object whose cursor does the work.
 */
module Parser {
  import opened Text
  import opened Sequences
  import opened Syntax
  import opened Lexer

  // ---- The rules ----

  function KindAt(ts: seq<Token>, i: nat): Kind {
    if i < |ts| then ts[i].kind else End
  }

  function LexemeAt(ts: seq<Token>, i: nat): string {
    if i < |ts| then ts[i].lexeme else ""
  }

  predicate IsLiteral(k: Kind) {
    k == Quoted || k == Number || k == Name
  }

  /** What a rule found, and the position behind it. */
  datatype Parsed<+T> = Fail | Got(value: T, next: nat)

  /** One or more items between commas: names, or literals of any kind. */
  function ListAt(ts: seq<Token>, i: nat, literals: bool): (r: Parsed<seq<string>>)
    ensures r.Got? ==> i < r.next <= |ts| && r.value != []
    decreases |ts| - i
  {
    if !(KindAt(ts, i) == Name || (literals && IsLiteral(KindAt(ts, i)))) then Fail
    else if KindAt(ts, i + 1) != Sym(Comma) then Got([LexemeAt(ts, i)], i + 1)
    else
      match ListAt(ts, i + 2, literals)
      case Fail => Fail
      case Got(rest, next) => Got([LexemeAt(ts, i)] + rest, next)
  }

  /** table, or schema.table. */
  function NameAt(ts: seq<Token>, i: nat): (r: Parsed<QualifiedName>)
    ensures r.Got? ==> i < r.next <= |ts|
  {
    if KindAt(ts, i) != Name then Fail
    else if KindAt(ts, i + 1) != Sym(Dot) then Got(QualifiedName(None, LexemeAt(ts, i)), i + 1)
    else if KindAt(ts, i + 2) != Name then Fail
    else Got(QualifiedName(Some(LexemeAt(ts, i)), LexemeAt(ts, i + 2)), i + 3)
  }

  /** A list in parentheses. */
  function ParenthesizedAt(ts: seq<Token>, i: nat, literals: bool): (r: Parsed<seq<string>>)
    ensures r.Got? ==> i < r.next <= |ts| && r.value != []
  {
    if KindAt(ts, i) != Sym(LParen) then Fail
    else
      match ListAt(ts, i + 1, literals)
      case Fail => Fail
      case Got(list, j) => if KindAt(ts, j) == Sym(RParen) then Got(list, j + 1) else Fail
  }

  /** What follows INSERT. */
  function InsertAt(ts: seq<Token>, i: nat): (r: Parsed<Statement>)
    ensures r.Got? ==> i < r.next <= |ts|
  {
    if KindAt(ts, i) != Kw(IntoWord) then Fail
    else
      match NameAt(ts, i + 1)
      case Fail => Fail
      case Got(target, j) =>
        match ParenthesizedAt(ts, j, false)
        case Fail => Fail
        case Got(columns, k) =>
          if KindAt(ts, k) != Kw(ValuesWord) then Fail
          else
            match ParenthesizedAt(ts, k + 1, true)
            case Fail => Fail
            case Got(values, next) => Got(InsertInto(target, columns, values), next)
  }

  function OpOf(k: Kind): Option<Op> {
    match k
    case Sym(Eq) => Some(Equal)
    case Sym(Ge) => Some(GreaterEqual)
    case Sym(Gt) => Some(Greater)
    case Sym(Le) => Some(LessEqual)
    case Sym(Lt) => Some(Less)
    case _ => None
  }

  /** An optional WHERE clause. */
  function WhereAt(ts: seq<Token>, i: nat): (r: Parsed<Where>)
    requires i <= |ts|
    ensures r.Got? ==> i <= r.next <= |ts|
  {
    if KindAt(ts, i) != Kw(WhereWord) then Got(NoWhere, i)
    else
      var op := OpOf(KindAt(ts, i + 2));
      if KindAt(ts, i + 1) != Name || op.None? || !IsLiteral(KindAt(ts, i + 3)) then Fail
      else Got(Where(LexemeAt(ts, i + 1), LexemeAt(ts, i + 3), op.value), i + 4)
  }

  /** What SELECT lists: nothing stands for the star. */
  function ColumnsAt(ts: seq<Token>, i: nat): (r: Parsed<seq<string>>)
    ensures r.Got? ==> i < r.next <= |ts|
    ensures r.Got? ==> (r.value == [] <==> KindAt(ts, i) == Sym(Star))
  {
    if KindAt(ts, i) == Sym(Star) then Got([], i + 1) else ListAt(ts, i, false)
  }

  /** What follows SELECT. */
  function SelectAt(ts: seq<Token>, i: nat): (r: Parsed<Statement>)
    ensures r.Got? ==> i < r.next <= |ts|
  {
    match ColumnsAt(ts, i)
    case Fail => Fail
    case Got(columns, j) =>
      if KindAt(ts, j) != Kw(FromWord) then Fail
      else
        match NameAt(ts, j + 1)
        case Fail => Fail
        case Got(source, k) =>
          match WhereAt(ts, k)
          case Fail => Fail
          case Got(w, next) => Got(SelectFrom(source, SelectStatement(columns == [], columns, w)), next)
  }

  function StatementAt(ts: seq<Token>, i: nat): (r: Parsed<Statement>)
    ensures r.Got? ==> i < r.next <= |ts|
  {
    match KindAt(ts, i)
    case Kw(InsertWord) => InsertAt(ts, i + 1)
    case Kw(SelectWord) => SelectAt(ts, i + 1)
    case _ => Fail
  }

  /** Statements up to the end token; semicolons separate them, any number at a time, or none. */
  function ScriptAt(ts: seq<Token>, i: nat): Option<seq<Statement>>
    decreases |ts| - i
  {
    if KindAt(ts, i) == End then Some([])
    else if KindAt(ts, i) == Sym(Semicolon) then ScriptAt(ts, i + 1)
    else
      match StatementAt(ts, i)
      case Fail => None
      case Got(statement, j) =>
        var rest := ScriptAt(ts, if KindAt(ts, j) == Sym(Semicolon) then j + 1 else j);
        if rest.None? then None else Some([statement] + rest.value)
  }

  /** The statements of a text, or nothing when it has an error. */
  function Parse(s: string): Option<seq<Statement>> {
    var ts := LexText(s);
    if ts.None? then None else ScriptAt(ts.value, 0)
  }

  // ---- The parser object ----

  /** One end token, in last place. */
  ghost predicate Terminated(ts: seq<Token>) {
    && ts != [] && ts[|ts| - 1].kind == End
    && forall k :: 0 <= k < |ts| - 1 ==> ts[k].kind != End
  }

  class Parser {
    const tokens: seq<Token>
    var current: nat

    /** The cursor never passes the end token. */
    ghost predicate Valid()
      reads this
    {
      Terminated(tokens) && current < |tokens|
    }

    constructor (tokens: seq<Token>)
      requires Terminated(tokens)
      ensures Valid() && this.tokens == tokens && current == 0
    {
      this.tokens, current := tokens, 0;
    }

    method Peek() returns (t: Token)
      requires Valid()
      ensures t.kind == KindAt(tokens, current) && t.lexeme == LexemeAt(tokens, current)
    {
      t := tokens[current];
    }

    /** Moves past any token but the end. */
    method Advance()
      requires Valid() && KindAt(tokens, current) != End
      modifies this
      ensures Valid() && current == old(current) + 1
    {
      current := current + 1;
    }

    method Match(kind: Kind) returns (matched: bool)
      requires Valid() && kind != End
      modifies this
      ensures Valid() && matched == (KindAt(tokens, old(current)) == kind)
      ensures current == if matched then old(current) + 1 else old(current)
    {
      var t := Peek();
      matched := t.kind == kind;
      if matched {
        Advance();
      }
    }

    /** Items between commas; fails at a token that is no item. */
    method ParseList(literals: bool) returns (list: Option<seq<string>>)
      requires Valid()
      modifies this
      ensures Valid()
      ensures match ListAt(tokens, old(current), literals)
              case Fail => list == None
              case Got(found, next) => list == Some(found) && current == next
    {
      var out: seq<string> := [];
      ghost var start := current;
      var more := true;
      AfterNothing(ListAt(tokens, start, literals));
      while more
        invariant Valid()
        invariant more ==> ListAt(tokens, start, literals) == After(out, ListAt(tokens, current, literals))
        invariant !more ==> ListAt(tokens, start, literals) == Got(out, current)
        decreases |tokens| - current, more
      {
        var t := Peek();
        if !(t.kind == Name || (literals && IsLiteral(t.kind))) {
          return None;
        }
        ListStep(out, t.lexeme, ListAt(tokens, current + 2, literals));
        out := out + [t.lexeme];
        Advance();
        more := Match(Sym(Comma));
      }
      list := Some(out);
    }

    method ParseQualifiedName() returns (name: Option<QualifiedName>)
      requires Valid()
      modifies this
      ensures Valid()
      ensures match NameAt(tokens, old(current))
              case Fail => name == None
              case Got(found, next) => name == Some(found) && current == next
    {
      var first := Peek();
      if first.kind != Name {
        return None;
      }
      Advance();
      var dotted := Match(Sym(Dot));
      if !dotted {
        return Some(QualifiedName(None, first.lexeme));
      }
      var second := Peek();
      if second.kind != Name {
        return None;
      }
      Advance();
      name := Some(QualifiedName(Some(first.lexeme), second.lexeme));
    }

    /** A list in parentheses. */
    method ParseParenthesized(literals: bool) returns (list: Option<seq<string>>)
      requires Valid()
      modifies this
      ensures Valid()
      ensures match ParenthesizedAt(tokens, old(current), literals)
              case Fail => list == None
              case Got(found, next) => list == Some(found) && current == next
    {
      list := None;
      var ok := Match(Sym(LParen));
      if ok {
        list := ParseList(literals);
        if list.Some? {
          ok := Match(Sym(RParen));
          list := if ok then list else None;
        }
      }
    }

    method ParseInsert() returns (statement: Option<Statement>)
      requires Valid()
      modifies this
      ensures Valid()
      ensures match InsertAt(tokens, old(current))
              case Fail => statement == None
              case Got(found, next) => statement == Some(found) && current == next
    {
      var ok := Match(Kw(IntoWord));
      if !ok {
        return None;
      }
      var target := ParseQualifiedName();
      if target.None? {
        return None;
      }
      var columns := ParseParenthesized(false);
      if columns.None? {
        return None;
      }
      ok := Match(Kw(ValuesWord));
      if !ok {
        return None;
      }
      var values := ParseParenthesized(true);
      statement := if values.None? then None else Some(InsertInto(target.value, columns.value, values.value));
    }

    method ParseOperator() returns (op: Option<Op>)
      requires Valid()
      modifies this
      ensures Valid() && op == OpOf(KindAt(tokens, old(current)))
      ensures current == if op.Some? then old(current) + 1 else old(current)
    {
      var t := Peek();
      op := OpOf(t.kind);
      if op.Some? {
        Advance();
      }
    }

    method ParseWhere() returns (w: Option<Where>)
      requires Valid()
      modifies this
      ensures Valid()
      ensures match WhereAt(tokens, old(current))
              case Fail => w == None
              case Got(found, next) => w == Some(found) && current == next
    {
      var present := Match(Kw(WhereWord));
      if !present {
        return Some(NoWhere);
      }
      var column := Peek();
      if column.kind != Name {
        return None;
      }
      Advance();
      var op := ParseOperator();
      if op.None? {
        return None;
      }
      var value := Peek();
      if !IsLiteral(value.kind) {
        return None;
      }
      Advance();
      w := Some(Where(column.lexeme, value.lexeme, op.value));
    }

    /** A star, or a list of names. */
    method ParseColumns() returns (columns: Option<seq<string>>)
      requires Valid()
      modifies this
      ensures Valid()
      ensures match ColumnsAt(tokens, old(current))
              case Fail => columns == None
              case Got(found, next) => columns == Some(found) && current == next
    {
      columns := Some([]);
      var all := Match(Sym(Star));
      if !all {
        columns := ParseList(false);
      }
    }

    method ParseSelect() returns (statement: Option<Statement>)
      requires Valid()
      modifies this
      ensures Valid()
      ensures match SelectAt(tokens, old(current))
              case Fail => statement == None
              case Got(found, next) => statement == Some(found) && current == next
    {
      var columns := ParseColumns();
      if columns.None? {
        return None;
      }
      var ok := Match(Kw(FromWord));
      if !ok {
        return None;
      }
      var source := ParseQualifiedName();
      if source.None? {
        return None;
      }
      var w := ParseWhere();
      statement := if w.None? then None
                   else Some(SelectFrom(source.value, SelectStatement(columns.value == [], columns.value, w.value)));
    }

    method ParseStatement() returns (statement: Option<Statement>)
      requires Valid()
      modifies this
      ensures Valid()
      ensures match StatementAt(tokens, old(current))
              case Fail => statement == None
              case Got(found, next) => statement == Some(found) && current == next
    {
      statement := None;
      var isInsert := Match(Kw(InsertWord));
      if isInsert {
        statement := ParseInsert();
      } else {
        var isSelect := Match(Kw(SelectWord));
        if isSelect {
          statement := ParseSelect();
        }
      }
    }

    /** A statement and the semicolon behind it, if there is one. */
    method ParseNext() returns (statement: Option<Statement>)
      requires Valid() && KindAt(tokens, current) != End && KindAt(tokens, current) != Sym(Semicolon)
      modifies this
      ensures Valid()
      ensures match statement
              case None => ScriptAt(tokens, old(current)) == None
              case Some(x) => ScriptAt(tokens, old(current)) == Prefixed([x], ScriptAt(tokens, current))
      ensures statement.Some? ==> current > old(current)
    {
      ghost var i := current;
      statement := ParseStatement();
      if statement.Some? {
        ghost var j := current;
        var separated := Match(Sym(Semicolon));
        ScriptMore(tokens, i, statement.value, j, current);
      } else {
        ScriptFails(tokens, i);
      }
    }

    /** All statements up to the end token. */
    method ParseScript() returns (script: Option<seq<Statement>>)
      requires Valid() && current == 0
      modifies this
      ensures Valid() && script == ScriptAt(tokens, 0)
    {
      var out: seq<Statement> := [];
      PrefixedNothing(ScriptAt(tokens, 0));
      var t := Peek();
      while t.kind != End
        invariant Valid() && t.kind == KindAt(tokens, current)
        invariant ScriptAt(tokens, 0) == Prefixed(out, ScriptAt(tokens, current))
        decreases |tokens| - current
      {
        var empty := Match(Sym(Semicolon));
        if !empty {
          var statement := ParseNext();
          if statement.None? {
            return None;
          }
          PrefixedStep(out, statement.value, ScriptAt(tokens, current));
          out := out + [statement.value];
        }
        t := Peek();
      }
      assert out + [] == out;
      script := Some(out);
    }
  }

  lemma ScriptMore(ts: seq<Token>, i: nat, statement: Statement, j: nat, next: nat)
    requires KindAt(ts, i) != End && KindAt(ts, i) != Sym(Semicolon) && StatementAt(ts, i) == Got(statement, j)
    requires next == if KindAt(ts, j) == Sym(Semicolon) then j + 1 else j
    ensures ScriptAt(ts, i) == Prefixed([statement], ScriptAt(ts, next))
  {
  }

  lemma ScriptFails(ts: seq<Token>, i: nat)
    requires KindAt(ts, i) != End && KindAt(ts, i) != Sym(Semicolon) && StatementAt(ts, i) == Fail
    ensures ScriptAt(ts, i) == None
  {
  }

  ghost function After(out: seq<string>, r: Parsed<seq<string>>): Parsed<seq<string>> {
    match r
    case Fail => Fail
    case Got(rest, next) => Got(out + rest, next)
  }

  lemma AfterNothing(r: Parsed<seq<string>>)
    ensures After([], r) == r
  {
    if r.Got? {
      assert [] + r.value == r.value;
    }
  }

  lemma ListStep(out: seq<string>, item: string, r: Parsed<seq<string>>)
    ensures After(out + [item], r) == After(out, After([item], r))
  {
    if r.Got? {
      assert (out + [item]) + r.value == out + ([item] + r.value);
    }
  }

  lemma {:induction false} LexTerminates(s: string, i: nat)
    requires i <= |s| && Lex(s, i).Some?
    ensures Terminated(Lex(s, i).value)
    decreases |s| - i
  {
    match Next(s, i)
    case Stop =>
    case Skip(to) => LexTerminates(s, to);
    case Emit(token, to) => LexTerminates(s, to);
  }

  /** Tokenize, then parse. */
  method ParseSqlScript(s: string) returns (script: Option<seq<Statement>>)
    ensures script == Parse(s)
  {
    var tokens := Tokenize(s);
    if tokens.None? {
      return None;
    }
    LexTerminates(s, TextStart(s));
    var parser := new Parser(tokens.value);
    script := parser.ParseScript();
  }
}
