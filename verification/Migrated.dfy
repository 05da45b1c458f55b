/**
  Activation of a table whose file is still text.
 */
module Migrated {
  import opened Text
  import opened Sequences
  import opened RowLog
  import opened LogProofs
  import opened Migration
  import opened EngineSpec
  import opened Rebuild
  import opened Runs
  import opened Limits

  lemma NoNulConcat(a: string, b: string)
    requires NoNul(a) && NoNul(b)
    ensures NoNul(a + b)
  {
  }

  lemma {:induction false} EscapedHasNoNul(field: string)
    requires NoNul(field)
    ensures NoNul(Escape(field))
  {
    if field != "" {
      EscapedHasNoNul(field[1..]);
      NoNulConcat(EscapeChar(field[0]), Escape(field[1..]));
    }
  }

  lemma {:induction false} LineHasNoNul(row: Row)
    requires row != [] && CStrings(row)
    ensures NoNul(RenderLine(row))
  {
    EscapedHasNoNul(row[0]);
    if |row| == 1 {
      NoNulConcat(Escape(row[0]), "\n");
    } else {
      LineHasNoNul(row[1..]);
      NoNulConcat(Escape(row[0]), "|");
      NoNulConcat(Escape(row[0]) + "|", RenderLine(row[1..]));
    }
  }

  lemma {:induction false} TextHasNoNul(rows: seq<Row>)
    requires forall i :: 0 <= i < |rows| ==> rows[i] != [] && CStrings(rows[i])
    ensures NoNul(RenderText(rows))
  {
    if rows != [] {
      LineHasNoNul(rows[0]);
      TextHasNoNul(rows[1..]);
      NoNulConcat(RenderLine(rows[0]), RenderText(rows[1..]));
    }
  }

  /** Storable rows have at least one field. */
  predicate AllStorable(rows: seq<Row>) {
    forall i :: 0 <= i < |rows| ==> rows[i] != [] && Storable(rows[i])
  }

  /** The rows that a text file stands for, as the new binary file. */
  function MigratedFile(rows: seq<Row>): string {
    AppendAll("", Kept(rows)).0
  }

  /** A rendered text of four characters or more is prepared as a clean log of the same rows. */
  lemma PreparedText(rows: seq<Row>)
    requires AllStorable(rows) && |RenderText(rows)| >= 4
    ensures Prepared(RenderText(rows)) == Some(MigratedFile(rows))
    ensures Clean(MigratedFile(rows)) && RowsOf(ItemsOf(MigratedFile(rows))) == Kept(rows)
  {
    TextHasNoNul(rows);
    TextLooksBinaryIffShort(RenderText(rows));
    assert "" + RenderText(rows) == RenderText(rows);
    TextRowsOfRendered("", rows);
    MigrationKeepsRows(rows);
    KeptStorable(rows);
  }

  // ---- Any text ----

  /** The log that replaces a text. */
  function LogOfText(b: string): string {
    AppendAll("", TextRows(b, 0)).0
  }

  /**
    Activation of a table whose file is text with fields under 2^32 bytes: the text is
    replaced by its log in any case; the activation succeeds exactly when that log scans
    to its end and its rows are good, and then the caches say what the log says.
   */
  lemma ActivationMigrates(s: State, t: Table)
    requires !TakenAsActive(s, t)
    requires !LooksBinary(FileOf(s.files, t.path)) && AllWritable(TextRows(FileOf(s.files, t.path), 0))
    ensures var out := LogOfText(FileOf(s.files, t.path)); var (a, ok) := Activate(s, t);
      && a.files == s.files[t.path := out]
      && (ok <==> IdColumn(t) >= 0 && ScanFrom(out, 0).ok && GoodItems(ItemsOf(out), IdColumn(t), StudentColumn(t)))
      && (ok ==> a == ActiveState(a.files, t))
  {
    if IdColumn(t) >= 0 {
      var k := ActivationStops(s, t);
      FirstBadIsAll(ItemsOf(LogOfText(FileOf(s.files, t.path))), k, IdColumn(t), StudentColumn(t));
    }
  }

  lemma {:induction false} SplitHasNoNul(line: string, cur: string)
    requires NoNul(cur)
    ensures CStrings(Split(line, cur))
  {
    if line == "" || line[0] == '\0' || line[0] == '\n' {
    } else if line[0] == '\r' {
      SplitHasNoNul(line[1..], cur);
    } else if line[0] == '|' {
      SplitHasNoNul(line[1..], "");
    } else if line[0] == '\\' && |line| > 1 && Escaped(line[1]).Some? {
      NoNulConcat(cur, [Escaped(line[1]).value]);
      SplitHasNoNul(line[2..], cur + [Escaped(line[1]).value]);
    } else {
      NoNulConcat(cur, [line[0]]);
      SplitHasNoNul(line[1..], cur + [line[0]]);
    }
  }

  lemma {:induction false} TextRowsHaveNoNul(text: string, pos: nat)
    requires pos <= |text|
    ensures forall i :: 0 <= i < |TextRows(text, pos)| ==> CStrings(TextRows(text, pos)[i])
    decreases |text| - pos
  {
    if pos < |text| {
      var end := LineEnd(text, pos);
      SplitHasNoNul(text[pos..end], "");
      TextRowsHaveNoNul(text, end);
    }
  }

  /** Later appends only add to the file. */
  lemma {:induction false} AppendAllExtends(b: string, rows: seq<Row>, k: nat) returns (post: string)
    requires k <= |rows|
    ensures AppendAll(b, rows).0 == AppendAll(b, rows[..k]).0 + post
    decreases |rows|
  {
    var n := |rows| - 1;
    if k == |rows| {
      post := "";
      assert rows[..k] == rows;
    } else {
      post := AppendAllExtends(b, rows[..n], k);
      assert rows[..n][..k] == rows[..k];
      AppendAssoc(AppendAll(b, rows[..k]).0, post, EncodeRow(rows[n]));
      post := post + EncodeRow(rows[n]);
    }
  }

  /** The number of rows before the first that is beyond the reader's limits. */
  predicate FirstOver(rows: seq<Row>, k: nat) {
    && k <= |rows| && (forall i :: 0 <= i < k ==> WithinLimits(rows[i]))
    && (k < |rows| ==> !WithinLimits(rows[k]))
  }

  /**
    A log written row by row is read up to the first row beyond the limits of the reader;
    the scan reaches the end exactly when no row is.
   */
  lemma LogIsReadUpToLimit(rows: seq<Row>, k: nat)
    requires AllWritable(rows) && FirstOver(rows, k)
    requires forall i :: 0 <= i < |rows| ==> CStrings(rows[i]) && |rows[i]| < U32_LIMIT
    ensures var out := AppendAll("", rows).0;
      && (ScanFrom(out, 0).ok <==> k == |rows|) && (Clean(out) <==> k == |rows|)
      && RowsOf(ItemsOf(out)) == rows[..k]
  {
    var out, b := AppendAll("", rows).0, AppendAll("", rows[..k]).0;
    ReadableLog(rows[..k]);
    if k < |rows| {
      var post := AppendAllExtends("", rows, k + 1);
      assert rows[..k + 1][..k] == rows[..k];
      OverLimitIsMalformed(b, rows[k], post);
      AppendAssoc(b, EncodeRow(rows[k]), post);
      ScanExtends(b, EncodeRow(rows[k]) + post, 0);
      StopsThere(out, |b|);
      assert ItemsOf(b) + [] == ItemsOf(b);
    } else {
      assert rows[..k] == rows;
    }
  }

  lemma StopsThere(b: string, pos: nat)
    requires pos <= |b| && RowAt(b, pos) == Malformed
    ensures ScanFrom(b, pos) == Scan([], pos, false)
  {
  }

  /** So a text with one row beyond those limits is lost: it is replaced and cannot be activated. */
  lemma OverLimitTextIsReplaced(s: State, t: Table, rows: seq<Row>, k: nat)
    requires !TakenAsActive(s, t)
    requires !LooksBinary(FileOf(s.files, t.path)) && rows == TextRows(FileOf(s.files, t.path), 0)
    requires AllWritable(rows) && (forall i :: 0 <= i < |rows| ==> |rows[i]| < U32_LIMIT) && FirstOver(rows, k)
    ensures var (a, ok) := Activate(s, t);
      && RowsOf(ItemsOf(FileOf(a.files, t.path))) == rows[..k]
      && (ok <==> k == |rows| && IdColumn(t) >= 0
                  && GoodItems(ItemsOf(FileOf(a.files, t.path)), IdColumn(t), StudentColumn(t)))
  {
    TextRowsHaveNoNul(FileOf(s.files, t.path), 0);
    ActivationMigrates(s, t);
    LogIsReadUpToLimit(rows, k);
  }
}
