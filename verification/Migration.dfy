/**
  The older text format, one row per line with fields between pipes, and its
  migration to the binary log.
 */
module Migration {
  import opened Text
  import opened Sequences
  import opened RowLog
  import opened LogProofs

  // ---- Splitting a line ----

  function Escaped(c: char): Option<char> {
    if c == 'n' then Some('\n') else if c == 'r' then Some('\r') else if c == '|' || c == '\\' then Some(c) else None
  }

  /** The fields of a line; cur is the field being read. The line ends at a zero byte, a newline, or its end. */
  function Split(line: string, cur: string): (fields: Row)
    ensures |fields| > 0
  {
    if line == "" || line[0] == '\0' || line[0] == '\n' then [cur]
    else if line[0] == '\r' then Split(line[1..], cur)
    else if line[0] == '|' then [cur] + Split(line[1..], "")
    else if line[0] == '\\' && |line| > 1 && Escaped(line[1]).Some? then
      Split(line[2..], cur + [Escaped(line[1]).value])
    else Split(line[1..], cur + [line[0]])
  }

  method SplitPipeLine(line: string) returns (values: Row)
    ensures values == Split(line, "")
  {
    values := [];
    var buffer, index := "", 0;
    while index < |line| && line[index] != '\0' && line[index] != '\n'
      invariant index <= |line|
      invariant values + Split(line[index..], buffer) == Split(line, "")
    {
      var ch := line[index];
      if ch == '\r' {
        assert line[index..][1..] == line[index + 1..];
        index := index + 1;
      } else if ch == '|' {
        assert line[index..][1..] == line[index + 1..];
        assert values + ([buffer] + Split(line[index + 1..], "")) == (values + [buffer]) + Split(line[index + 1..], "");
        values, buffer, index := values + [buffer], "", index + 1;
      } else if ch == '\\' && index + 1 < |line| && Escaped(line[index + 1]).Some? {
        assert line[index..][2..] == line[index + 2..];
        buffer, index := buffer + [Escaped(line[index + 1]).value], index + 2;
      } else {
        assert line[index..][1..] == line[index + 1..];
        buffer, index := buffer + [ch], index + 1;
      }
    }
    values := values + [buffer];
  }

  // ---- Lines and rows of a text file ----

  /** The position after the line that starts at pos. */
  function LineEnd(text: string, pos: nat): (end: nat)
    requires pos < |text|
    ensures pos < end <= |text|
    decreases |text| - pos
  {
    if text[pos] == '\n' || pos + 1 == |text| then pos + 1 else LineEnd(text, pos + 1)
  }

  method ReadTextLine(text: string, pos: nat) returns (end: nat)
    requires pos < |text|
    ensures end == LineEnd(text, pos)
  {
    end := pos;
    while text[end] != '\n' && end + 1 < |text|
      invariant pos <= end < |text|
      invariant LineEnd(text, end) == LineEnd(text, pos)
      decreases |text| - end
    {
      end := end + 1;
    }
    end := end + 1;
  }

  /** The rows of the text from pos on; a line with one empty field is no row. */
  function TextRows(text: string, pos: nat): seq<Row>
    requires pos <= |text|
    decreases |text| - pos
  {
    if pos == |text| then []
    else
      var end := LineEnd(text, pos);
      var row := Split(text[pos..end], "");
      (if row == [""] then [] else [row]) + TextRows(text, end)
  }

  predicate AllWritable(rows: seq<Row>) {
    forall i :: 0 <= i < |rows| ==> Writable(rows[i])
  }

  lemma AppendOne(b: string, rows: seq<Row>, row: Row)
    ensures AppendAll(b, rows + [row]).0 == AppendAll(b, rows).0 + EncodeRow(row)
  {
    assert (rows + [row])[..|rows|] == rows;
  }

  lemma NextLine(text: string, pos: nat, done: seq<Row>)
    requires pos < |text|
    ensures var end := LineEnd(text, pos); var row := Split(text[pos..end], "");
      done + TextRows(text, pos) == (if row == [""] then done else done + [row]) + TextRows(text, end)
  {
  }

  /** The file that appending the rows of the text to an empty file gives. */
  method Migrate(text: string) returns (ok: bool, out: string)
    ensures ok <==> AllWritable(TextRows(text, 0))
    ensures ok ==> out == AppendAll("", TextRows(text, 0)).0
  {
    ok, out := true, "";
    var pos := 0;
    ghost var done: seq<Row> := [];
    while pos < |text| && ok
      invariant pos <= |text|
      invariant TextRows(text, 0) == done + TextRows(text, pos)
      invariant ok <==> AllWritable(done)
      invariant ok ==> out == AppendAll("", done).0
      decreases |text| - pos
    {
      var end := ReadTextLine(text, pos);
      var values := SplitPipeLine(text[pos..end]);
      NextLine(text, pos, done);
      if values != [""] {
        AppendOne("", done, values);
        var ref;
        ok, out, ref := AppendRow(out, values);
        done := done + [values];
        assert done[|done| - 1] == values;
      }
      pos := end;
    }
    assert ok ==> TextRows(text, 0) == done;
    assert forall i :: 0 <= i < |done| ==> TextRows(text, 0)[i] == done[i];
  }

  // ---- Writing text: the inverse ----

  function EscapeChar(c: char): string {
    if c == '\n' then "\\n" else if c == '\r' then "\\r" else if c == '|' || c == '\\' then ['\\', c] else [c]
  }

  function Escape(field: string): string {
    if field == "" then "" else EscapeChar(field[0]) + Escape(field[1..])
  }

  function RenderLine(row: Row): string
    requires row != []
  {
    if |row| == 1 then Escape(row[0]) + "\n" else Escape(row[0]) + "|" + RenderLine(row[1..])
  }

  function RenderText(rows: seq<Row>): string
    requires forall i :: 0 <= i < |rows| ==> rows[i] != []
  {
    if rows == [] then "" else RenderLine(rows[0]) + RenderText(rows[1..])
  }

  /** Splitting takes an escaped field back apart, whatever follows it. */
  lemma {:induction false} SplitEscaped(field: string, rest: string, cur: string)
    requires NoNul(field)
    ensures Split(Escape(field) + rest, cur) == Split(rest, cur + field)
  {
    if field == "" {
      assert Escape(field) + rest == rest && cur + field == cur;
    } else {
      var c, tail := field[0], Escape(field[1..]) + rest;
      assert Escape(field) + rest == EscapeChar(c) + tail;
      SplitEscapedChar(c, tail, cur);
      SplitEscaped(field[1..], rest, cur + [c]);
      assert (cur + [c]) + field[1..] == cur + field;
    }
  }

  lemma SplitEscapedChar(c: char, tail: string, cur: string)
    requires c != '\0'
    ensures Split(EscapeChar(c) + tail, cur) == Split(tail, cur + [c])
  {
    var line := EscapeChar(c) + tail;
    if |EscapeChar(c)| == 1 {
      assert line[0] == c && line[1..] == tail;
    } else {
      assert line[0] == '\\' && line[1] == EscapeChar(c)[1] && line[2..] == tail;
    }
  }

  lemma {:induction false} SplitRendered(row: Row)
    requires row != [] && CStrings(row)
    ensures Split(RenderLine(row), "") == row
  {
    assert "" + row[0] == row[0];
    if |row| == 1 {
      SplitEscaped(row[0], "\n", "");
    } else {
      var rest := "|" + RenderLine(row[1..]);
      assert RenderLine(row) == Escape(row[0]) + rest;
      SplitEscaped(row[0], rest, "");
      assert rest[1..] == RenderLine(row[1..]);
      SplitRendered(row[1..]);
      assert row == [row[0]] + row[1..];
    }
  }

  predicate NoNewline(s: string) {
    forall i :: 0 <= i < |s| ==> s[i] != '\n'
  }

  lemma {:induction false} EscapeHasNoNewline(field: string)
    ensures NoNewline(Escape(field))
  {
    if field != "" {
      EscapeHasNoNewline(field[1..]);
    }
  }

  lemma {:induction false} RenderedLineShape(row: Row)
    requires row != []
    ensures var s := RenderLine(row); |s| > 0 && s[|s| - 1] == '\n' && NoNewline(s[..|s| - 1])
  {
    var s := RenderLine(row);
    EscapeHasNoNewline(row[0]);
    if |row| == 1 {
      assert s[..|s| - 1] == Escape(row[0]);
    } else {
      var r := RenderLine(row[1..]);
      RenderedLineShape(row[1..]);
      assert s[..|s| - 1] == Escape(row[0]) + "|" + r[..|r| - 1];
    }
  }

  lemma {:induction false} LineEndIs(text: string, pos: nat, end: nat)
    requires pos < end <= |text| && text[end - 1] == '\n' && forall i :: pos <= i < end - 1 ==> text[i] != '\n'
    ensures LineEnd(text, pos) == end
    decreases end - pos
  {
    if pos + 1 < end {
      LineEndIs(text, pos + 1, end);
    }
  }

  /** What migration keeps: every row but those with a single empty field. */
  function Kept(rows: seq<Row>): seq<Row> {
    if rows == [] then [] else (if rows[0] == [""] then [] else [rows[0]]) + Kept(rows[1..])
  }

  lemma OneLine(pre: string, line: string, tail: string)
    requires line != "" && line[|line| - 1] == '\n' && NoNewline(line[..|line| - 1])
    ensures LineEnd((pre + line) + tail, |pre|) == |pre| + |line|
    ensures ((pre + line) + tail)[|pre|..|pre| + |line|] == line
  {
    var text := (pre + line) + tail;
    forall i | |pre| <= i < |pre| + |line| - 1 ensures text[i] != '\n' {
      assert text[i] == line[..|line| - 1][i - |pre|];
    }
    LineEndIs(text, |pre|, |pre| + |line|);
  }

  lemma {:induction false} TextRowsOfRendered(pre: string, rows: seq<Row>)
    requires forall i :: 0 <= i < |rows| ==> rows[i] != [] && CStrings(rows[i])
    ensures TextRows(pre + RenderText(rows), |pre|) == Kept(rows)
    decreases |rows|
  {
    if rows != [] {
      var line, tail := RenderLine(rows[0]), RenderText(rows[1..]);
      RenderedLineShape(rows[0]);
      SplitRendered(rows[0]);
      AppendAssoc(pre, line, tail);
      OneLine(pre, line, tail);
      TextRowsOfRendered(pre + line, rows[1..]);
      assert |pre + line| == |pre| + |line|;
    }
  }

  lemma {:induction false} KeptStorable(rows: seq<Row>)
    requires forall i :: 0 <= i < |rows| ==> Storable(rows[i])
    ensures forall i :: 0 <= i < |Kept(rows)| ==> Storable(Kept(rows)[i])
  {
    if rows != [] {
      KeptStorable(rows[1..]);
    }
  }

  function RowsOf(items: seq<Item>): seq<Row> {
    seq(|items|, i requires 0 <= i < |items| => items[i].row)
  }

  /** Rendering rows as text and migrating gives a clean log of the same rows, but for single empty fields. */
  lemma MigrationKeepsRows(rows: seq<Row>)
    requires forall i :: 0 <= i < |rows| ==> rows[i] != [] && Storable(rows[i])
    ensures var out := AppendAll("", TextRows(RenderText(rows), 0)).0;
      Clean(out) && RowsOf(ItemsOf(out)) == Kept(rows)
  {
    assert "" + RenderText(rows) == RenderText(rows);
    TextRowsOfRendered("", rows);
    KeptStorable(rows);
    ReadableLog(Kept(rows));
  }

  lemma NothingBefore(items: seq<Item>)
    ensures Clean("") && ItemsOf("") + items == items
  {
    assert ItemsOf("") == [];
  }

  /** A log of storable rows holds exactly these rows. */
  lemma ReadableLog(rows: seq<Row>)
    requires forall i :: 0 <= i < |rows| ==> Storable(rows[i])
    ensures Clean(AppendAll("", rows).0) && RowsOf(ItemsOf(AppendAll("", rows).0)) == rows
  {
    LogRoundTrip("", rows);
    var refs := AppendAll("", rows).1;
    NothingBefore(Paired(refs, rows));
    PairedRows(refs, rows);
  }

  lemma {:induction false} PairedRows(refs: seq<nat>, rows: seq<Row>)
    requires |refs| == |rows|
    ensures RowsOf(Paired(refs, rows)) == rows
  {
    if rows != [] {
      PairedRows(refs[..|rows| - 1], rows[..|rows| - 1]);
      var p := Paired(refs[..|rows| - 1], rows[..|rows| - 1]);
      assert RowsOf(p + [Item(refs[|rows| - 1], rows[|rows| - 1])]) == RowsOf(p) + [rows[|rows| - 1]];
    }
  }

  // ---- Which files are migrated ----

  /** The lengths of the first row; seeking past the end of the file is no error. */
  predicate LengthsFit(b: string, pos: nat, n: nat)
    decreases n
  {
    n == 0 || (pos + 4 <= |b|
               && DecodeU32(b[pos..pos + 4]) <= MAX_FIELD_BYTES
               && LengthsFit(b, pos + 4 + DecodeU32(b[pos..pos + 4]), n - 1))
  }

  predicate LooksBinary(b: string) {
    |b| < 4 || (1 <= DecodeU32(b[..4]) <= MAX_FIELDS && LengthsFit(b, 4, DecodeU32(b[..4])))
  }

  method FileLooksBinary(b: string) returns (binary: bool)
    ensures binary == LooksBinary(b)
  {
    if |b| < 4 {
      return true;
    }
    var count := DecodeU32(b[..4]);
    if count == 0 || count > MAX_FIELDS {
      return false;
    }
    var pos: nat, i: nat := 4, 0;
    while i < count
      invariant i <= count && LengthsFit(b, 4, count) == LengthsFit(b, pos, count - i)
    {
      if pos + 4 > |b| || DecodeU32(b[pos..pos + 4]) > MAX_FIELD_BYTES {
        return false;
      }
      pos, i := pos + 4 + DecodeU32(b[pos..pos + 4]), i + 1;
    }
    binary := true;
  }

  lemma {:induction false} FieldsLookBinary(b: string, pos: nat, n: nat)
    requires pos <= |b| && FieldsAt(b, pos, n).Some?
    ensures LengthsFit(b, pos, n)
    decreases n
  {
    if n > 0 {
      FieldsLookBinary(b, FieldAt(b, pos).value.1, n - 1);
    }
  }

  /** A clean log is never mistaken for text. */
  lemma CleanLooksBinary(b: string)
    requires Clean(b)
    ensures LooksBinary(b)
  {
    if |b| >= 4 {
      assert b[0..4] == b[..4];
      assert RowAt(b, 0).Read?;
      FieldsLookBinary(b, 4, DecodeU32(b[..4]));
    }
  }

  /** Text is recognised as text exactly when it has four characters or more. */
  lemma TextLooksBinaryIffShort(text: string)
    requires NoNul(text)
    ensures LooksBinary(text) <==> |text| < 4
  {
    if |text| >= 4 {
      var s := text[..4];
      var s1, s2, s3 := s[1..], s[2..], s[3..];
      assert s1[1..] == s2 && s2[1..] == s3;
      assert FromBytes(s) >= 256 * FromBytes(s1) && FromBytes(s1) >= 256 * FromBytes(s2);
      assert FromBytes(s2) >= 256 * FromBytes(s3) && FromBytes(s3) >= s3[0] as nat >= 1;
    }
  }

  /** The shortest tables are therefore lost: one row, one field, one digit stays text and scans as no row. */
  lemma ShortTextIsNotMigrated()
    ensures LooksBinary(RenderText([["1"]])) && ItemsOf(RenderText([["1"]])) == [] && Kept([["1"]]) == [["1"]]
  {
    assert RenderLine(["1"]) == "1\n";
    assert RenderText([["1"]]) == "1\n";
  }
}
