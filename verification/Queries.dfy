/**
  The loops of SELECT that do not use the index: the scan of the file, the positions of
  the selected columns, and the projection of the result.
 */
module Queries {
  import opened Text
  import opened Sequences
  import opened RowLog
  import opened Syntax
  import opened EngineSpec
  import opened Selects

  /** Scan of a whole file with a test on each row; over after the first hit when stop is set. */
  method ScanRows(b: string, w: Where, wi: int, stop: bool) returns (rows: Option<seq<Row>>)
    requires w.Where? ==> wi >= 0
    ensures rows == LinearFrom(b, 0, w, wi, stop)
  {
    var reader := new Reader(b, 0);
    var out: seq<Row> := [];
    PrefixedNothing(LinearFrom(b, 0, w, wi, stop));
    while true
      invariant reader.bytes == b && reader.pos <= |b|
      invariant LinearFrom(b, 0, w, wi, stop) == Prefixed(out, LinearFrom(b, reader.pos, w, wi, stop))
      decreases |b| - reader.pos
    {
      ghost var pos := reader.pos;
      var r := reader.ReadRow();
      match r {
        case Eof =>
          return Some(out + []);
        case Malformed =>
          return None;
        case Read(row, next) =>
          if w.Where? && wi >= |row| {
            return None;
          }
          if Passes(row, w, wi) {
            if stop {
              return Some(out + [row]);
            }
            PrefixedStep(out, row, LinearFrom(b, next, w, wi, stop));
            out := out + [row];
          }
      }
    }
  }

  /** SELECT without the index. */
  method SelectLinear(b: string, t: Table, w: Where) returns (rows: Option<seq<Row>>)
    ensures rows == Linear(b, t, w)
  {
    var wi, stop := -1, false;
    if w.Where? {
      wi := FindColumnIndex(t.columns, w.column);
      if wi < 0 {
        return None;
      }
      stop := w.op == Equal && SameName(w.column, "student_no");
    }
    rows := ScanRows(b, w, wi, stop);
  }

  // ---- Columns of the result ----

  lemma {:induction false} PositionsIff(columns: seq<string>, selected: seq<string>)
    ensures Positions(columns, selected).Some? <==>
      forall i :: 0 <= i < |selected| ==> ColumnIndex(columns, selected[i]) >= 0
  {
    if selected != [] {
      PositionsIff(columns, selected[1..]);
      assert selected == [selected[0]] + selected[1..];
    }
  }

  method FindPositions(columns: seq<string>, selected: seq<string>) returns (ps: Option<seq<int>>)
    ensures ps == Positions(columns, selected)
  {
    PositionsIff(columns, selected);
    var out: seq<int> := [];
    for i := 0 to |selected|
      invariant |out| == i
      invariant forall j :: 0 <= j < i ==> out[j] == ColumnIndex(columns, selected[j]) && out[j] >= 0
    {
      var index := FindColumnIndex(columns, selected[i]);
      if index < 0 {
        return None;
      }
      out := out + [index];
    }
    assert out == Positions(columns, selected).value;
    ps := Some(out);
  }

  /** One row cut down to the selected positions; fails at a position the row does not have. */
  method ProjectRow(row: Row, ps: seq<int>) returns (r: Option<Row>)
    ensures r == if InRange(ps, |row|) then Some(Project(row, ps)) else None
  {
    var out: Row := [];
    for i := 0 to |ps|
      invariant |out| == i && forall j :: 0 <= j < i ==> 0 <= ps[j] < |row| && out[j] == row[ps[j]]
    {
      if ps[i] < 0 || ps[i] >= |row| {
        return None;
      }
      out := out + [row[ps[i]]];
    }
    assert out == Project(row, ps);
    r := Some(out);
  }

  lemma ProjectNext(rows: seq<Row>, i: nat, ps: seq<int>)
    requires i < |rows| && ProjectAll(rows[..i], ps).Some?
    ensures InRange(ps, |rows[i]|) ==>
      ProjectAll(rows[..i + 1], ps) == Some(ProjectAll(rows[..i], ps).value + [Project(rows[i], ps)])
    ensures !InRange(ps, |rows[i]|) ==> ProjectAll(rows, ps) == None
  {
    assert rows[..i + 1] == rows[..i] + [rows[i]] && rows == rows[..i + 1] + rows[i + 1..];
    assert [rows[i]][1..] == [] && forall p: Row :: [p] + [] == [p];
    ProjectAllConcat(rows[..i], [rows[i]], ps);
    ProjectAllConcat(rows[..i + 1], rows[i + 1..], ps);
  }

  method ProjectRows(rows: seq<Row>, ps: seq<int>) returns (r: Option<seq<Row>>)
    ensures r == ProjectAll(rows, ps)
  {
    var out: seq<Row> := [];
    for i := 0 to |rows|
      invariant ProjectAll(rows[..i], ps) == Some(out)
    {
      ProjectNext(rows, i, ps);
      var row := ProjectRow(rows[i], ps);
      if row.None? {
        return None;
      }
      out := out + [row.value];
    }
    assert rows[..|rows|] == rows;
    r := Some(out);
  }

  /** The last part of SELECT: names and positions first, then every row. */
  method PresentRows(t: Table, q: SelectStatement, full: seq<Row>) returns (outcome: SelectOutcome)
    ensures outcome == Present(t, q, full)
  {
    var ps: seq<int> := AllPositions(t.columns);
    if !q.all {
      var found := FindPositions(t.columns, q.columns);
      if found.None? {
        return SelectRefused(UnknownSelected);
      }
      ps := found.value;
    }
    var names := ProjectRow(t.columns, ps);
    var rows := ProjectRows(full, ps);
    outcome := if rows.None? then SelectRefused(BadProjection) else Answer(names.value, rows.value);
  }
}
