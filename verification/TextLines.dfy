/**
  The older text format, whoever wrote it: what the fields of any line are, piece by
  piece, what carriage returns and stray backslashes do, and which lines are rows.
 */
module TextLines {
  import opened Sequences
  import opened RowLog
  import opened LogProofs
  import opened Migration
  import opened Migrated

  // ---- The pieces of a field ----

  /** An escape, a carriage return, or a character that stands for itself. */
  datatype Piece = Newline | Return | Pipe | Backslash | Dropped | Itself(c: char)

  function PieceText(p: Piece): string {
    match p
    case Newline => "\\n"
    case Return => "\\r"
    case Pipe => "\\|"
    case Backslash => "\\\\"
    case Dropped => "\r"
    case Itself(c) => [c]
  }

  function PieceValue(p: Piece): string {
    match p
    case Newline => "\n"
    case Return => "\r"
    case Pipe => "|"
    case Backslash => "\\"
    case Dropped => ""
    case Itself(c) => [c]
  }

  predicate Escapes(rest: string) {
    rest != "" && (rest[0] == 'n' || rest[0] == 'r' || rest[0] == '|' || rest[0] == '\\')
  }

  /** A character stands for itself unless it ends something; a backslash only before no escape. */
  predicate PieceFits(p: Piece, rest: string) {
    p.Itself? ==> p.c != '\0' && p.c != '\n' && p.c != '\r' && p.c != '|' && (p.c == '\\' ==> !Escapes(rest))
  }

  function FieldText(ps: seq<Piece>): string {
    if ps == [] then "" else PieceText(ps[0]) + FieldText(ps[1..])
  }

  function FieldValue(ps: seq<Piece>): string {
    if ps == [] then "" else PieceValue(ps[0]) + FieldValue(ps[1..])
  }

  predicate FieldFits(ps: seq<Piece>, rest: string) {
    ps == [] || (PieceFits(ps[0], FieldText(ps[1..]) + rest) && FieldFits(ps[1..], rest))
  }

  lemma SplitPiece(p: Piece, rest: string, cur: string)
    requires PieceFits(p, rest)
    ensures Split(PieceText(p) + rest, cur) == Split(rest, cur + PieceValue(p))
  {
    var line := PieceText(p) + rest;
    if |PieceText(p)| == 1 {
      assert line[1..] == rest && line[0] == PieceText(p)[0];
      assert rest != "" ==> line[1] == rest[0];
      assert cur + "" == cur;
    } else {
      assert line[0] == '\\' && line[1] == PieceText(p)[1] && line[2..] == rest;
    }
  }

  lemma {:induction false} SplitField(ps: seq<Piece>, rest: string, cur: string)
    requires FieldFits(ps, rest)
    ensures Split(FieldText(ps) + rest, cur) == Split(rest, cur + FieldValue(ps))
  {
    if ps == [] {
      assert "" + rest == rest && cur + "" == cur;
    } else {
      AppendAssoc(PieceText(ps[0]), FieldText(ps[1..]), rest);
      SplitPiece(ps[0], FieldText(ps[1..]) + rest, cur);
      SplitField(ps[1..], rest, cur + PieceValue(ps[0]));
      AppendAssoc(cur, PieceValue(ps[0]), FieldValue(ps[1..]));
    }
  }

  // ---- The fields of a line ----

  /** Fields with pipes between them. */
  function FieldsText(fields: seq<seq<Piece>>): string
    requires fields != []
  {
    if |fields| == 1 then FieldText(fields[0]) else FieldText(fields[0]) + ("|" + FieldsText(fields[1..]))
  }

  function FieldValues(fields: seq<seq<Piece>>): Row {
    if fields == [] then [] else [FieldValue(fields[0])] + FieldValues(fields[1..])
  }

  predicate FieldsFit(fields: seq<seq<Piece>>, rest: string)
    requires fields != []
  {
    if |fields| == 1 then FieldFits(fields[0], rest)
    else FieldFits(fields[0], "|" + (FieldsText(fields[1..]) + rest)) && FieldsFit(fields[1..], rest)
  }

  /** Where a line is over: at its end, a newline or a zero byte. */
  predicate Over(rest: string) {
    rest == "" || rest[0] == '\n' || rest[0] == '\0'
  }

  lemma FirstField(fields: seq<seq<Piece>>, rest: string)
    requires |fields| > 1
    ensures FieldsText(fields) + rest == FieldText(fields[0]) + ("|" + (FieldsText(fields[1..]) + rest))
  {
    AppendAssoc(FieldText(fields[0]), "|" + FieldsText(fields[1..]), rest);
    AppendAssoc("|", FieldsText(fields[1..]), rest);
  }

  /** Splitting a line takes its fields apart, and every piece to its value. */
  lemma {:induction false} SplitFields(fields: seq<seq<Piece>>, rest: string)
    requires fields != [] && FieldsFit(fields, rest) && Over(rest)
    ensures Split(FieldsText(fields) + rest, "") == FieldValues(fields)
  {
    assert "" + FieldValue(fields[0]) == FieldValue(fields[0]);
    if |fields| == 1 {
      SplitField(fields[0], rest, "");
    } else {
      var more := "|" + (FieldsText(fields[1..]) + rest);
      FirstField(fields, rest);
      SplitField(fields[0], more, "");
      assert more[1..] == FieldsText(fields[1..]) + rest;
      SplitFields(fields[1..], rest);
    }
  }

  lemma OneMorePiece(p: Piece, fields: seq<seq<Piece>>, rest: string) returns (all: seq<seq<Piece>>)
    requires fields != [] && FieldsFit(fields, rest) && PieceFits(p, FieldsText(fields) + rest)
    ensures all != [] && FieldsFit(all, rest) && FieldsText(all) + rest == PieceText(p) + (FieldsText(fields) + rest)
  {
    var head := [p] + fields[0];
    assert head[1..] == fields[0];
    all := [head] + fields[1..];
    assert all[1..] == fields[1..];
    if |fields| == 1 {
      AppendAssoc(PieceText(p), FieldText(fields[0]), rest);
    } else {
      FirstField(fields, rest);
      FirstField(all, rest);
      AppendAssoc(PieceText(p), FieldText(fields[0]), "|" + (FieldsText(fields[1..]) + rest));
    }
  }

  lemma OneMoreField(fields: seq<seq<Piece>>, rest: string) returns (all: seq<seq<Piece>>)
    requires fields != [] && FieldsFit(fields, rest)
    ensures all != [] && FieldsFit(all, rest) && FieldsText(all) + rest == "|" + (FieldsText(fields) + rest)
  {
    all := [[]] + fields;
    assert all[1..] == fields;
    FirstField(all, rest);
    assert "" + ("|" + (FieldsText(fields) + rest)) == "|" + (FieldsText(fields) + rest);
  }

  /** The piece that a line starts with. */
  function FirstPiece(line: string): Piece
    requires line != "" && line[0] != '|' && !Over(line)
  {
    if line[0] == '\r' then Dropped
    else if line[0] == '\\' && Escapes(line[1..]) then
      if line[1] == 'n' then Newline else if line[1] == 'r' then Return
      else if line[1] == '|' then Pipe else Backslash
    else Itself(line[0])
  }

  /** Every line is made of such pieces. */
  lemma {:induction false} LineHasPieces(line: string) returns (fields: seq<seq<Piece>>, rest: string)
    ensures fields != [] && line == FieldsText(fields) + rest && FieldsFit(fields, rest) && Over(rest)
  {
    if Over(line) {
      fields, rest := [[]], line;
      assert "" + line == line;
    } else if line[0] == '|' {
      fields, rest := LineHasPieces(line[1..]);
      fields := OneMoreField(fields, rest);
      assert line == "|" + line[1..];
    } else {
      var p := FirstPiece(line);
      var tail := line[|PieceText(p)|..];
      assert line == PieceText(p) + tail;
      fields, rest := LineHasPieces(tail);
      fields := OneMorePiece(p, fields, rest);
    }
  }

  ghost predicate Written(line: string, row: Row) {
    exists fields, rest :: fields != [] && line == FieldsText(fields) + rest && FieldsFit(fields, rest) && Over(rest)
      && row == FieldValues(fields)
  }

  /** The fields of any line whatever. */
  lemma SplitIff(line: string, row: Row)
    ensures Split(line, "") == row <==> Written(line, row)
  {
    var fields, rest := LineHasPieces(line);
    SplitFields(fields, rest);
    if f, r :| f != [] && line == FieldsText(f) + r && FieldsFit(f, r) && Over(r) && row == FieldValues(f) {
      SplitFields(f, r);
    }
  }

  // ---- Carriage returns, backslashes ----

  function WithoutReturns(s: string): string {
    if s == "" then "" else (if s[0] == '\r' then "" else [s[0]]) + WithoutReturns(s[1..])
  }

  /** In a line without a backslash a carriage return changes no field, wherever it is. */
  lemma {:induction false} ReturnsChangeNothing(line: string, cur: string)
    requires forall i :: 0 <= i < |line| ==> line[i] != '\\'
    ensures Split(WithoutReturns(line), cur) == Split(line, cur)
  {
    if line != "" {
      var rest, kept := line[1..], WithoutReturns(line[1..]);
      assert forall i :: 0 <= i < |rest| ==> rest[i] == line[i + 1];
      if line[0] == '\r' {
        assert "" + kept == kept;
        ReturnsChangeNothing(rest, cur);
      } else {
        assert ([line[0]] + kept)[1..] == kept;
        ReturnsChangeNothing(rest, "");
        ReturnsChangeNothing(rest, cur + [line[0]]);
      }
    }
  }

  /** A backslash before anything that is no escape is kept. */
  lemma StrayBackslashIsKept(rest: string, cur: string)
    requires !Escapes(rest)
    ensures Split("\\" + rest, cur) == Split(rest, cur + "\\")
  {
    assert PieceText(Itself('\\')) == "\\";
    SplitPiece(Itself('\\'), rest, cur);
  }

  // ---- The lines of a file ----

  predicate LinesOnly(lines: seq<string>) {
    forall i :: 0 <= i < |lines| ==> NoNewline(lines[i])
  }

  /** Every line with a newline behind it. */
  function LinesText(lines: seq<string>): string {
    if lines == [] then "" else (lines[0] + "\n") + LinesText(lines[1..])
  }

  /** A row for every line that has more than one empty field. */
  function LineRows(lines: seq<string>): seq<Row> {
    if lines == [] then []
    else (if Split(lines[0], "") == [""] then [] else [Split(lines[0], "")]) + LineRows(lines[1..])
  }

  lemma {:induction false} SplitStops(line: string, cur: string)
    ensures Split(line + "\n", cur) == Split(line, cur)
  {
    var all := line + "\n";
    if line != "" {
      assert all[0] == line[0] && all[1..] == line[1..] + "\n";
      if line[0] == '\\' && |line| > 1 && Escaped(line[1]).Some? {
        assert all[1] == line[1] && all[2..] == line[2..] + "\n";
        SplitStops(line[2..], cur + [Escaped(line[1]).value]);
      } else if line[0] == '\r' {
        SplitStops(line[1..], cur);
      } else if line[0] == '|' {
        SplitStops(line[1..], "");
      } else {
        assert |line| == 1 ==> all[1] == '\n';
        SplitStops(line[1..], cur + [line[0]]);
      }
    }
  }

  lemma {:induction false} LastLineEnd(text: string, pos: nat)
    requires pos < |text| && forall i :: pos <= i < |text| ==> text[i] != '\n'
    ensures LineEnd(text, pos) == |text|
    decreases |text| - pos
  {
    if pos + 1 < |text| {
      LastLineEnd(text, pos + 1);
    }
  }

  lemma LastRow(pre: string, last: string)
    requires NoNewline(last)
    ensures TextRows(pre + last, |pre|) == LineRows(if last == "" then [] else [last])
  {
    var text := pre + last;
    if last != "" {
      assert forall i :: |pre| <= i < |text| ==> text[i] == last[i - |pre|];
      LastLineEnd(text, |pre|);
      assert text[|pre|..|text|] == last && [last][1..] == [];
      assert TextRows(text, |text|) == [];
    }
  }

  /** The lines of a file are its rows, the last one with or without its newline. */
  lemma {:induction false} RowsOfLines(pre: string, lines: seq<string>, last: string)
    requires LinesOnly(lines) && NoNewline(last)
    ensures TextRows(pre + (LinesText(lines) + last), |pre|)
         == LineRows(lines + if last == "" then [] else [last])
    decreases |lines|
  {
    var end := if last == "" then [] else [last];
    if lines == [] {
      assert "" + last == last && [] + end == end;
      LastRow(pre, last);
    } else {
      var line, tail := lines[0] + "\n", LinesText(lines[1..]) + last;
      AppendAssoc(line, LinesText(lines[1..]), last);
      AppendAssoc(pre, line, tail);
      assert line[..|line| - 1] == lines[0];
      OneLine(pre, line, tail);
      SplitStops(lines[0], "");
      RowsOfLines(pre + line, lines[1..], last);
      assert |pre + line| == |pre| + |line|;
      assert (lines + end)[0] == lines[0] && (lines + end)[1..] == lines[1..] + end;
    }
  }

  // ---- Rendered rows with other line ends ----

  /** A rendered row without its newline. */
  function RenderFields(row: Row): string
    requires row != []
  {
    if |row| == 1 then Escape(row[0]) else Escape(row[0]) + ("|" + RenderFields(row[1..]))
  }

  /** Rendered rows with a carriage return and a newline behind each. */
  function RenderCrLf(rows: seq<Row>): string
    requires forall i :: 0 <= i < |rows| ==> rows[i] != []
  {
    if rows == [] then "" else (RenderFields(rows[0]) + "\r\n") + RenderCrLf(rows[1..])
  }

  lemma {:induction false} RenderedLine(row: Row)
    requires row != []
    ensures RenderLine(row) == RenderFields(row) + "\n" && NoNewline(RenderFields(row))
  {
    EscapeHasNoNewline(row[0]);
    if |row| > 1 {
      RenderedLine(row[1..]);
      assert Escape(row[0]) + "|" + RenderLine(row[1..]) == (Escape(row[0]) + ("|" + RenderFields(row[1..]))) + "\n";
    }
  }

  lemma {:induction false} SplitWithReturn(row: Row)
    requires row != [] && CStrings(row)
    ensures Split(RenderFields(row) + "\r", "") == row
  {
    assert "" + row[0] == row[0];
    if |row| == 1 {
      SplitEscaped(row[0], "\r", "");
      assert "\r"[1..] == "";
    } else {
      var rest := "|" + (RenderFields(row[1..]) + "\r");
      AppendAssoc(Escape(row[0]), "|" + RenderFields(row[1..]), "\r");
      AppendAssoc("|", RenderFields(row[1..]), "\r");
      SplitEscaped(row[0], rest, "");
      assert rest[1..] == RenderFields(row[1..]) + "\r";
      SplitWithReturn(row[1..]);
      assert row == [row[0]] + row[1..];
    }
  }

  function CrLines(rows: seq<Row>): (lines: seq<string>)
    requires forall i :: 0 <= i < |rows| ==> rows[i] != []
  {
    if rows == [] then [] else [RenderFields(rows[0]) + "\r"] + CrLines(rows[1..])
  }

  lemma {:induction false} CrLinesAre(rows: seq<Row>)
    requires forall i :: 0 <= i < |rows| ==> rows[i] != [] && CStrings(rows[i])
    ensures LinesOnly(CrLines(rows)) && LinesText(CrLines(rows)) == RenderCrLf(rows)
    ensures LineRows(CrLines(rows)) == Kept(rows)
  {
    if rows != [] {
      RenderedLine(rows[0]);
      SplitWithReturn(rows[0]);
      CrLinesAre(rows[1..]);
      assert (RenderFields(rows[0]) + "\r") + "\n" == RenderFields(rows[0]) + "\r\n";
    }
  }

  /** Line ends with a carriage return give the same rows as plain ones. */
  lemma CrLfKeepsRows(rows: seq<Row>)
    requires forall i :: 0 <= i < |rows| ==> rows[i] != [] && CStrings(rows[i])
    ensures TextRows(RenderCrLf(rows), 0) == Kept(rows) == TextRows(RenderText(rows), 0)
    ensures LogOfText(RenderCrLf(rows)) == LogOfText(RenderText(rows))
  {
    CrLinesAre(rows);
    RowsOfLines("", CrLines(rows), "");
    assert "" + (RenderCrLf(rows) + "") == RenderCrLf(rows) && CrLines(rows) + [] == CrLines(rows);
    assert "" + RenderText(rows) == RenderText(rows);
    TextRowsOfRendered("", rows);
  }
}
