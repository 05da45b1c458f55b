/**
  SELECT over any file whatever, also one that cannot be read to its end: when a scan or
  an index path fails, with which error, and which rows it yields when it does not.
 */
module AnyFile {
  import opened Entries
  import opened Text
  import opened RowLog
  import opened LogProofs
  import opened LogMeaning
  import opened Syntax
  import opened EngineSpec
  import opened Numbers
  import opened Selects
  import opened SelectTheorems
  import opened SelectMeaning
  import opened Limits

  // ---- The scan ----

  /** The row has the column that the WHERE clause names. */
  ghost predicate WideEnough(t: Table, row: Row, w: Where) {
    w.Where? ==> forall p: nat :: FirstColumn(t.columns, w.column, p) ==> p < |row|
  }

  /** The scan does not end before row k: every row before it can be tested, and a search has found none. */
  ghost predicate ComesTo(t: Table, items: seq<Item>, w: Where, k: nat) {
    k <= |items| && forall i: nat :: i < k ==>
      WideEnough(t, items[i].row, w) && !(SearchesStudent(w) && Wanted(t, items[i].row, w))
  }

  /** The search ends with row k. */
  ghost predicate EndsAt(t: Table, items: seq<Item>, w: Where, k: nat) {
    SearchesStudent(w) && k < |items| && ComesTo(t, items, w, k) && Wanted(t, items[k].row, w)
  }

  /** The rows that a scan yields. */
  ghost predicate ScanYields(t: Table, scan: Scan, w: Where, rows: seq<Row>) {
    || (exists k: nat :: EndsAt(t, scan.items, w, k) && rows == [scan.items[k].row])
    || (scan.ok && ComesTo(t, scan.items, w, |scan.items|) && rows == WantedRows(t, scan.items, w))
  }

  lemma Conditions(t: Table, w: Where, wi: int, row: Row)
    requires w.Where? ==> wi == ColumnIndex(t.columns, w.column) >= 0
    ensures WideEnough(t, row, w) <==> Testable(row, w, wi)
    ensures Wanted(t, row, w) <==> Matches(row, w, wi)
  {
    if w.Where? {
      FirstColumnIff(t.columns, w.column);
      assert FirstColumn(t.columns, w.column, wi);
      WantedIff(t, row, w);
    }
  }

  lemma ComesStep(t: Table, items: seq<Item>, w: Where, k: nat)
    requires items != [] && 0 < k <= |items|
    ensures ComesTo(t, items, w, k) <==> ComesTo(t, items, w, 1) && ComesTo(t, items[1..], w, k - 1)
  {
    var rest := items[1..];
    forall i: nat | i < k - 1 ensures rest[i] == items[i + 1] {
    }
    if ComesTo(t, items, w, 1) && ComesTo(t, rest, w, k - 1) {
      forall i: nat | i < k
        ensures WideEnough(t, items[i].row, w) && !(SearchesStudent(w) && Wanted(t, items[i].row, w))
      {
        if i > 0 {
          assert items[i] == rest[i - 1];
        }
      }
    }
  }

  lemma EndsStep(t: Table, items: seq<Item>, w: Where, k: nat)
    requires items != [] && 0 < k
    ensures EndsAt(t, items, w, k) <==> ComesTo(t, items, w, 1) && EndsAt(t, items[1..], w, k - 1)
  {
    if k < |items| {
      ComesStep(t, items, w, k);
      assert items[k] == items[1..][k - 1];
    }
  }

  /** One row that does not end the scan. */
  lemma YieldsMore(t: Table, scan: Scan, w: Where, rows: seq<Row>)
    requires scan.items != [] && ComesTo(t, scan.items, w, 1)
    ensures var rest := scan.(items := scan.items[1..]);
      var hit := if Wanted(t, scan.items[0].row, w) then [scan.items[0].row] else [];
      ScanYields(t, scan, w, hit + rows) <==> ScanYields(t, rest, w, rows)
  {
    var items, rest := scan.items, scan.(items := scan.items[1..]);
    var hit := if Wanted(t, items[0].row, w) then [items[0].row] else [];
    assert !EndsAt(t, items, w, 0);
    ComesStep(t, items, w, |items|);
    assert hit + rows == hit + WantedRows(t, items[1..], w) <==> rows == WantedRows(t, items[1..], w) by {
      assert (hit + rows)[|hit|..] == rows;
      assert (hit + WantedRows(t, items[1..], w))[|hit|..] == WantedRows(t, items[1..], w);
    }
    if k: nat :| EndsAt(t, items, w, k) && hit + rows == [items[k].row] {
      EndsStep(t, items, w, k);
      assert items[1..][k - 1] == items[k] && SearchesStudent(w) && hit == [] && [] + rows == rows;
    }
    if k: nat :| EndsAt(t, items[1..], w, k) && rows == [items[1..][k].row] {
      EndsStep(t, items, w, k + 1);
      assert items[1..][k] == items[k + 1] && hit == [] && [] + rows == rows;
    }
  }

  /** What a scan yields starts with its first row, if that is wanted and does not end it. */
  lemma YieldsFirst(t: Table, scan: Scan, w: Where, rows: seq<Row>) returns (rest: seq<Row>)
    requires scan.items != [] && ComesTo(t, scan.items, w, 1) && ScanYields(t, scan, w, rows)
    ensures rows == (if Wanted(t, scan.items[0].row, w) then [scan.items[0].row] else []) + rest
  {
    if k: nat :| EndsAt(t, scan.items, w, k) && rows == [scan.items[k].row] {
      assert k > 0 && ComesTo(t, scan.items, w, 1);
      rest := rows;
    } else {
      rest := WantedRows(t, scan.items[1..], w);
    }
  }

  lemma YieldsAtOnce(t: Table, scan: Scan, w: Where, rows: seq<Row>)
    requires scan.items != [] && !ComesTo(t, scan.items, w, 1)
    ensures ScanYields(t, scan, w, rows) <==>
      SearchesStudent(w) && Wanted(t, scan.items[0].row, w) && rows == [scan.items[0].row]
  {
    var items := scan.items;
    ComesStep(t, items, w, |items|);
    assert ComesTo(t, items, w, 0);
    forall k: nat | EndsAt(t, items, w, k) ensures k == 0 {
      if k > 0 {
        EndsStep(t, items, w, k);
      }
    }
    if SearchesStudent(w) && Wanted(t, items[0].row, w) {
      assert EndsAt(t, items, w, 0);
    }
  }

  lemma WantedIsWide(t: Table, row: Row, w: Where)
    requires Wanted(t, row, w)
    ensures WideEnough(t, row, w)
  {
    if w.Where? {
      FirstColumnIff(t.columns, w.column);
    }
  }

  /** The scan of any bytes. */
  lemma {:induction false} ScanIff(t: Table, b: string, pos: nat, w: Where, rows: seq<Row>)
    requires pos <= |b| && (w.Where? ==> WhereColumn(t, w) >= 0)
    ensures LinearFrom(b, pos, w, WhereColumn(t, w), StopsEarly(w)) == Some(rows)
      <==> ScanYields(t, ScanFrom(b, pos), w, rows)
    decreases |b| - pos
  {
    var scan, wi, stop := ScanFrom(b, pos), WhereColumn(t, w), StopsEarly(w);
    PathConditions(w);
    match RowAt(b, pos)
    case Eof =>
      assert ComesTo(t, scan.items, w, 0);
    case Malformed =>
    case Read(row, next) =>
      assert scan.items[0].row == row && scan.(items := scan.items[1..]) == ScanFrom(b, next);
      Conditions(t, w, wi, row);
      if !ComesTo(t, scan.items, w, 1) {
        YieldsAtOnce(t, scan, w, rows);
      } else {
        var hit := if Wanted(t, row, w) then [row] else [];
        if LinearFrom(b, pos, w, wi, stop) == Some(rows) {
          var rest := LinearFrom(b, next, w, wi, stop).value;
          assert rows == hit + rest;
          ScanIff(t, b, next, w, rest);
          YieldsMore(t, scan, w, rest);
        }
        if ScanYields(t, scan, w, rows) {
          var rest := YieldsFirst(t, scan, w, rows);
          YieldsMore(t, scan, w, rest);
          ScanIff(t, b, next, w, rest);
          assert [] + rest == rest;
        }
      }
  }

  // ---- The index path ----

  lemma {:induction false} InMatching(index: seq<Entry>, op: Op, id: u64, e: Entry)
    ensures e in Matching(index, op, id) <==> e in index && NumbersMeet(e.key, op, id)
  {
    if index != [] {
      InMatching(index[1..], op, id, e);
    }
  }

  /** The entries of an ordered index that the comparison selects: all of them, and in order. */
  lemma MatchingIff(index: seq<Entry>, op: Op, id: u64)
    requires Ascending(index)
    ensures Ascending(Matching(index, op, id))
    ensures forall e :: e in Matching(index, op, id) <==> e in index && NumbersMeet(e.key, op, id)
  {
    StretchUp(index, op, id);
    forall e ensures e in Matching(index, op, id) <==> e in index && NumbersMeet(e.key, op, id) {
      InMatching(index, op, id, e);
    }
  }

  /** A row of the given width lies where the entry points. */
  ghost predicate PointsAt(b: string, e: Entry, width: nat, row: Row) {
    |row| == width && exists next :: RowBytes(b, e.ref, row, next)
  }

  lemma RefIff(b: string, e: Entry, width: nat, row: Row)
    ensures RowByRef(b, e.ref, width) == Some(row) <==> PointsAt(b, e, width, row)
  {
    if e.ref <= |b| {
      RowAtIff(b, e.ref);
    }
  }

  ghost predicate PointAt(b: string, es: seq<Entry>, width: nat, rows: seq<Row>) {
    |rows| == |es| && forall k :: 0 <= k < |es| ==> PointsAt(b, es[k], width, rows[k])
  }

  /** The index path yields one row for each entry, or fails. */
  lemma {:induction false} RefsIff(b: string, es: seq<Entry>, width: nat, rows: seq<Row>)
    ensures RowsByRefs(b, es, width) == Some(rows) <==> PointAt(b, es, width, rows)
    decreases |es|
  {
    if es != [] && rows != [] {
      RefIff(b, es[0], width, rows[0]);
      RefsIff(b, es[1..], width, rows[1..]);
      assert rows == [rows[0]] + rows[1..];
      assert PointAt(b, es, width, rows) <==>
        PointsAt(b, es[0], width, rows[0]) && PointAt(b, es[1..], width, rows[1..]) by {
        assert forall k :: 0 < k < |es| ==> es[k] == es[1..][k - 1];
        assert forall k :: 0 < k < |rows| ==> rows[k] == rows[1..][k - 1];
      }
    }
  }

  // ---- Rows of any width ----

  /** A field that the statement shows is missing. */
  ghost predicate TooNarrow(t: Table, q: SelectStatement, row: Row) {
    if q.all then |row| < |t.columns|
    else exists i: nat, p: nat :: i < |q.columns| && FirstColumn(t.columns, q.columns[i], p) && p >= |row|
  }

  lemma {:induction false} ProjectAllIff(rows: seq<Row>, ps: seq<int>, out: seq<Row>)
    ensures ProjectAll(rows, ps) == Some(out) <==>
      && |out| == |rows| && forall k :: 0 <= k < |rows| ==> InRange(ps, |rows[k]|) && out[k] == Project(rows[k], ps)
  {
    if rows != [] && out != [] {
      ProjectAllIff(rows[1..], ps, out[1..]);
      assert out == [out[0]] + out[1..];
      assert forall k :: 0 < k < |rows| ==> rows[k] == rows[1..][k - 1];
      assert forall k :: 0 < k < |out| ==> out[k] == out[1..][k - 1];
    }
  }

  lemma {:induction false} ProjectAllFails(rows: seq<Row>, ps: seq<int>)
    ensures ProjectAll(rows, ps) == None <==> exists k :: 0 <= k < |rows| && !InRange(ps, |rows[k]|)
  {
    if rows != [] {
      ProjectAllFails(rows[1..], ps);
      assert forall k :: 0 < k < |rows| ==> rows[k] == rows[1..][k - 1];
    }
  }

  ghost function ShownPositions(t: Table, q: SelectStatement): seq<int>
    requires !ListsUnknown(t, q)
  {
    PositionsKnown(t.columns, q.columns);
    if q.all then AllPositions(t.columns) else Positions(t.columns, q.columns).value
  }

  lemma NarrowIff(t: Table, q: SelectStatement, row: Row)
    requires !ListsUnknown(t, q)
    ensures InRange(ShownPositions(t, q), |row|) <==> !TooNarrow(t, q, row)
  {
    var ps := ShownPositions(t, q);
    PositionsKnown(t.columns, q.columns);
    if q.all {
      assert |t.columns| > 0 ==> ps[|t.columns| - 1] == |t.columns| - 1;
    } else {
      forall i: nat | i < |q.columns| ensures FirstColumn(t.columns, q.columns[i], ps[i]) {
        FirstColumnIff(t.columns, q.columns[i]);
      }
      forall i: nat, p: nat | i < |q.columns| && FirstColumn(t.columns, q.columns[i], p) ensures p == ps[i] {
        FirstColumnIff(t.columns, q.columns[i]);
      }
    }
  }

  /** How any rows are presented: refused for an unknown column, or for a row that misses a field. */
  lemma PresentIff(t: Table, q: SelectStatement, full: seq<Row>)
    ensures ListsUnknown(t, q) ==> Present(t, q, full) == SelectRefused(UnknownSelected)
    ensures !ListsUnknown(t, q) ==> var a := Present(t, q, full);
      if exists k :: 0 <= k < |full| && TooNarrow(t, q, full[k]) then a == SelectRefused(BadProjection) else a.Answer?
  {
    PositionsKnown(t.columns, q.columns);
    if !ListsUnknown(t, q) {
      ProjectAllFails(full, ShownPositions(t, q));
      forall k | 0 <= k < |full| ensures InRange(ShownPositions(t, q), |full[k]|) <==> !TooNarrow(t, q, full[k]) {
        NarrowIff(t, q, full[k]);
      }
    }
  }

  /** The statement shows the rows in their order; of all columns as many as the table has. */
  ghost predicate ShownCut(t: Table, q: SelectStatement, full: seq<Row>, names: seq<string>, rows: seq<Row>) {
    if q.all then
      && names == t.columns && |rows| == |full|
      && forall k :: 0 <= k < |full| ==> |full[k]| >= |t.columns| && rows[k] == full[k][..|t.columns|]
    else Shown(t, q, full, names, rows)
  }

  lemma PresentShows(t: Table, q: SelectStatement, full: seq<Row>)
    ensures var a := Present(t, q, full); a.Answer? ==> ShownCut(t, q, full, a.columns, a.rows)
  {
    var a := Present(t, q, full);
    PositionsKnown(t.columns, q.columns);
    if a.Answer? {
      var ps := ShownPositions(t, q);
      ProjectAllIff(full, ps, a.rows);
      if q.all {
        assert forall i :: 0 <= i < |t.columns| ==> ps[i] == i;
        forall k | 0 <= k < |full| ensures |full[k]| >= |t.columns| && a.rows[k] == full[k][..|t.columns|] {
          NarrowIff(t, q, full[k]);
        }
      } else {
        forall i | 0 <= i < |q.columns| ensures ShowsColumn(t, q.columns[i], i, full, a.columns, a.rows) {
          FirstColumnIff(t.columns, q.columns[i]);
          assert ShowsAt(t, ps[i], i, full, a.columns, a.rows);
        }
      }
    }
  }

  // ---- The whole statement ----

  /** The rows that a SELECT on the given file and index finds before it picks their columns. */
  ghost predicate Finds(s: State, t: Table, w: Where, rows: seq<Row>) {
    var b := FileOf(s.files, t.path);
    if NumberOnId(w) then
      exists v: u64 :: IsNumber(w.value, v) && PointAt(b, Matching(s.index, w.op, v), |t.columns|, rows)
    else
      (w.Where? ==> HasColumn(t.columns, w.column)) && ScanYields(t, ScanFrom(b, 0), w, rows)
  }

  lemma FindsIff(s: State, t: Table, w: Where, rows: seq<Row>)
    ensures FullRows(s, t, w) == Some(rows) <==> Finds(s, t, w, rows)
  {
    var b := FileOf(s.files, t.path);
    PathConditions(w);
    if OnId(w) {
      var id := ParseU64(w.value).value;
      NumberIff(w.value, id);
      RefsIff(b, Matching(s.index, w.op, id), |t.columns|, rows);
      forall v: u64 | IsNumber(w.value, v) ensures v == id {
        NumberIff(w.value, v);
      }
    } else {
      if w.Where? {
        UnknownWhere(t, w);
      }
      if w.Where? ==> WhereColumn(t, w) >= 0 {
        ScanIff(t, b, 0, w, rows);
      }
    }
  }

  /** The error of a SELECT that finds no rows to show. */
  ghost function NothingFound(w: Where): SelectError {
    if !NumberOnId(w) then LinearPathFailed else if w.op == Equal then IdPathFailed else RangePathFailed
  }

  /**
    SELECT on an active table, over every state of its file and index. It is refused
    exactly when its path finds no rows to show, when it lists an unknown column, or when
    a row found misses a field that it shows.
   */
  lemma SelectOnAnyFile(s: State, t: Table, q: SelectStatement)
    requires TakenAsActive(s, t)
    ensures var (s', a) := Select(s, t, q);
      && s' == s
      && ((forall rows :: !Finds(s, t, q.where_, rows)) ==> a == SelectRefused(NothingFound(q.where_)))
      && forall rows :: Finds(s, t, q.where_, rows) ==>
           if ListsUnknown(t, q) then a == SelectRefused(UnknownSelected)
           else if exists k :: 0 <= k < |rows| && TooNarrow(t, q, rows[k]) then a == SelectRefused(BadProjection)
           else a.Answer? && ShownCut(t, q, rows, a.columns, a.rows)
  {
    var full := FullRows(s, t, q.where_);
    PathConditions(q.where_);
    if full.Some? {
      FindsIff(s, t, q.where_, full.value);
      PresentIff(t, q, full.value);
      PresentShows(t, q, full.value);
    }
    forall rows | Finds(s, t, q.where_, rows) ensures full == Some(rows) {
      FindsIff(s, t, q.where_, rows);
    }
  }
}
