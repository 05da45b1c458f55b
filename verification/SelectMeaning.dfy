/**
  What a SELECT on a sound table shows, in terms of the letters of the statement and the
  rows of the file alone: which rows, in which order, under which columns, and when it is
  refused.
 */
module SelectMeaning {
  import opened Entries
  import opened Text
  import opened RowLog
  import opened LogProofs
  import opened Syntax
  import opened EngineSpec
  import opened Rebuild
  import opened Runs
  import opened Selects
  import opened SelectTheorems
  import opened Numbers

  // ---- Columns ----

  /** Some listed column is unknown. */
  ghost predicate ListsUnknown(t: Table, q: SelectStatement) {
    !q.all && exists i :: 0 <= i < |q.columns| && !HasColumn(t.columns, q.columns[i])
  }

  /** The i-th column shown is the first one with the given name, in the heading and in every row. */
  ghost predicate ShowsColumn(t: Table, name: string, i: nat, full: seq<Row>, names: seq<string>, rows: seq<Row>) {
    exists p: nat :: FirstColumn(t.columns, name, p) && ShowsAt(t, p, i, full, names, rows)
  }

  ghost predicate ShowsAt(t: Table, p: nat, i: nat, full: seq<Row>, names: seq<string>, rows: seq<Row>) {
    && p < |t.columns| && i < |names| && names[i] == t.columns[p] && |rows| == |full|
    && forall k :: 0 <= k < |full| ==> p < |full[k]| && i < |rows[k]| && rows[k][i] == full[k][p]
  }

  /** All columns as they are, or the listed ones in the order of the list. */
  ghost predicate Shown(t: Table, q: SelectStatement, full: seq<Row>, names: seq<string>, rows: seq<Row>) {
    if q.all then names == t.columns && rows == full
    else
      && |names| == |q.columns| && |rows| == |full| && AllOfWidth(rows, |q.columns|)
      && forall i :: 0 <= i < |q.columns| ==> ShowsColumn(t, q.columns[i], i, full, names, rows)
  }

  lemma {:induction false} PositionsKnown(columns: seq<string>, selected: seq<string>)
    ensures Positions(columns, selected).Some? <==>
      forall i :: 0 <= i < |selected| ==> HasColumn(columns, selected[i])
  {
    if selected != [] {
      FirstColumnIff(columns, selected[0]);
      PositionsKnown(columns, selected[1..]);
      assert forall i :: 0 < i < |selected| ==> selected[i] == selected[1..][i - 1];
    }
  }

  lemma AllIsWhole(t: Table, full: seq<Row>, out: seq<Row>)
    requires AllOfWidth(full, |t.columns|) && ProjectAll(full, AllPositions(t.columns)) == Some(out)
    ensures out == full && Project(t.columns, AllPositions(t.columns)) == t.columns
  {
    var width, ps := |t.columns|, AllPositions(t.columns);
    var picked := ProjectAllMeaning(full, ps, width);
    assert forall i :: 0 <= i < width ==> ps[i] == i;
    forall k | 0 <= k < |full| ensures out[k] == full[k] {
      forall i | 0 <= i < width ensures out[k][i] == full[k][i] {
        assert out[k][i] == full[k][ps[i]];
      }
    }
  }

  lemma ListedShown(t: Table, q: SelectStatement, full: seq<Row>, ps: seq<int>, rows: seq<Row>)
    requires !q.all && AllOfWidth(full, |t.columns|)
    requires Positions(t.columns, q.columns) == Some(ps) && ProjectAll(full, ps) == Some(rows)
    ensures Shown(t, q, full, Project(t.columns, ps), rows)
  {
    var names := Project(t.columns, ps);
    var picked := ProjectAllMeaning(full, ps, |t.columns|);
    forall i | 0 <= i < |q.columns| ensures ShowsColumn(t, q.columns[i], i, full, names, rows) {
      FirstColumnIff(t.columns, q.columns[i]);
      assert ShowsAt(t, ps[i], i, full, names, rows);
    }
  }

  /** How rows are presented. */
  lemma PresentMeaning(t: Table, q: SelectStatement, full: seq<Row>)
    requires AllOfWidth(full, |t.columns|)
    ensures var a := Present(t, q, full);
      if ListsUnknown(t, q) then a == SelectRefused(UnknownSelected)
      else a.Answer? && Shown(t, q, full, a.columns, a.rows)
  {
    PositionsKnown(t.columns, q.columns);
    if q.all {
      var rows := ProjectAllMeaning(full, AllPositions(t.columns), |t.columns|);
      AllIsWhole(t, full, rows);
    } else if !ListsUnknown(t, q) {
      var ps := Positions(t.columns, q.columns).value;
      var rows := ProjectAllMeaning(full, ps, |t.columns|);
      ListedShown(t, q, full, ps, rows);
    }
  }

  // ---- Rows ----

  /** The row has the column of the WHERE clause, and its field there meets the comparison. */
  ghost predicate Wanted(t: Table, row: Row, w: Where) {
    match w
    case NoWhere => true
    case Where(column, value, op) =>
      exists p: nat :: FirstColumn(t.columns, column, p) && p < |row| && Meets(row[p], op, value)
  }

  /** The wanted rows, in file order. */
  ghost function WantedRows(t: Table, items: seq<Item>, w: Where): seq<Row> {
    if items == [] then []
    else (if Wanted(t, items[0].row, w) then [items[0].row] else []) + WantedRows(t, items[1..], w)
  }

  lemma WantedIff(t: Table, row: Row, w: Where)
    ensures Matches(row, w, WhereColumn(t, w)) <==> Wanted(t, row, w)
  {
    if w.Where? {
      var wi := ColumnIndex(t.columns, w.column);
      FirstColumnIff(t.columns, w.column);
      if 0 <= wi < |row| {
        ValueMatchesIff(row[wi], w.value, w.op);
        assert FirstColumn(t.columns, w.column, wi);
      }
    }
  }

  lemma {:induction false} WantedIsFilter(t: Table, items: seq<Item>, w: Where)
    ensures Filter(items, w, WhereColumn(t, w)) == WantedRows(t, items, w)
  {
    if items != [] {
      WantedIff(t, items[0].row, w);
      WantedIsFilter(t, items[1..], w);
    }
  }

  ghost predicate IsWanted(t: Table, items: seq<Item>, w: Where, row: Row) {
    exists i :: 0 <= i < |items| && items[i].row == row && Wanted(t, row, w)
  }

  lemma {:induction false} InWantedRows(t: Table, items: seq<Item>, w: Where, row: Row)
    ensures row in WantedRows(t, items, w) <==> IsWanted(t, items, w, row)
  {
    if items != [] {
      var rest := items[1..];
      InWantedRows(t, rest, w, row);
      if i :| 0 <= i < |items| && items[i].row == row && Wanted(t, row, w) && i > 0 {
        assert rest[i - 1].row == row;
      }
      if i :| 0 <= i < |rest| && rest[i].row == row && Wanted(t, row, w) {
        assert items[i + 1].row == row;
      }
    }
  }

  // ---- A number on the id column ----

  /** Ids go up strictly from row to row. */
  ghost predicate UpById(rows: seq<Row>, idc: int) {
    forall i, j :: 0 <= i < j < |rows| ==> IdOf(rows[i], idc) < IdOf(rows[j], idc)
  }

  lemma StretchUp(a: seq<Entry>, op: Op, id: u64)
    requires Ascending(a)
    ensures Ascending(Matching(a, op, id)) && forall e :: e in Matching(a, op, id) ==> e in a
  {
    MatchingIsStretch(a, op, id);
  }

  /** The rows that entries of the index point at have the ids of the entries. */
  lemma {:induction false} RefIds(b: string, es: seq<Entry>, items: seq<Item>, width: nat, idc: int)
    returns (rows: seq<Row>)
    requires forall i :: 0 <= i < |items| ==> Readable(b, items[i], width, idc)
    requires forall e :: e in es ==> HasEntry(items, idc, e)
    ensures RowsByRefs(b, es, width) == Some(rows) && |rows| == |es|
    ensures forall k :: 0 <= k < |es| ==> IdOf(rows[k], idc) == es[k].key
  {
    rows := [];
    if es != [] {
      assert HasEntry(items, idc, es[0]);
      var i :| 0 <= i < |items| && es[0] == EntryOf(items[i], idc);
      assert Readable(b, items[i], width, idc);
      var rest := RefIds(b, es[1..], items, width, idc);
      rows := [items[i].row] + rest;
    }
  }

  /** The rows of the index path, in id order. */
  lemma IdRows(t: Table, b: string, w: Where, id: u64) returns (rows: seq<Row>)
    requires GoodTable(t) && GoodFile(t, b) && OnId(w) && ParseU64(w.value) == Some(id)
    ensures Found(b, IndexOf(ItemsOf(b), IdColumn(t)), w.op, id, |t.columns|) == Some(rows)
    ensures UpById(rows, IdColumn(t)) && AllOfWidth(rows, |t.columns|)
    ensures forall row :: row in rows <==> IsWanted(t, ItemsOf(b), w, row)
  {
    var items, idc := ItemsOf(b), IdColumn(t);
    var index := IndexOf(items, idc);
    GoodIsReadable(t, b);
    SameNameColumns(t.columns, w.column, "id");
    IndexAscending(items, idc, StudentColumn(t));
    StretchUp(index, w.op, id);
    rows := IndexPathIsFilter(b, items, |t.columns|, w, idc, id);
    forall e | e in Matching(index, w.op, id) ensures HasEntry(items, idc, e) {
      IndexIsRows(items, idc, e);
    }
    var same := RefIds(b, Matching(index, w.op, id), items, |t.columns|, idc);
    assert same == rows;
    WantedIsFilter(t, items, w);
    FilterWidth(items, w, idc, |t.columns|);
    SameWidthAnyOrder(rows, WantedRows(t, items, w), |t.columns|);
    forall row ensures row in rows <==> IsWanted(t, items, w, row) {
      assert row in rows <==> row in multiset(rows);
      InWantedRows(t, items, w, row);
    }
  }

  // ---- The whole statement ----

  /** The WHERE clause compares an id column with a number. */
  ghost predicate NumberOnId(w: Where) {
    w.Where? && SameLetters(w.column, "id") && Numeric(w.value)
  }

  /** The WHERE clause looks for a student number. */
  ghost predicate SearchesStudent(w: Where) {
    w.Where? && SameLetters(w.column, "student_no") && w.op == Equal
  }

  /** Ascending ids and every wanted row, or the wanted rows in file order, of a student search only the first. */
  ghost predicate RowsFor(t: Table, items: seq<Item>, w: Where, full: seq<Row>) {
    if NumberOnId(w) then UpById(full, IdColumn(t)) && forall row :: row in full <==> IsWanted(t, items, w, row)
    else
      var wanted := WantedRows(t, items, w);
      if SearchesStudent(w) && wanted != [] then full == [wanted[0]] else full == wanted
  }

  lemma PathConditions(w: Where)
    ensures OnId(w) <==> NumberOnId(w)
    ensures StopsEarly(w) <==> SearchesStudent(w)
  {
    if w.Where? {
      SameNameIff(w.column, "id");
      SameNameIff(w.column, "student_no");
      NumericIff(w.value);
    }
  }

  lemma UnknownWhere(t: Table, w: Where)
    requires w.Where?
    ensures HasColumn(t.columns, w.column) <==> WhereColumn(t, w) >= 0
  {
    FirstColumnIff(t.columns, w.column);
  }

  lemma ScannedRows(t: Table, b: string, w: Where) returns (full: seq<Row>)
    requires GoodTable(t) && GoodFile(t, b) && (w.Where? ==> WhereColumn(t, w) >= 0)
    ensures Linear(b, t, w) == Some(full) && AllOfWidth(full, |t.columns|)
    ensures full == UpTo(WantedRows(t, ItemsOf(b), w), StopsEarly(w))
  {
    var items, wi := ItemsOf(b), WhereColumn(t, w);
    WantedIsFilter(t, items, w);
    LinearIsFilter(b, 0, items, w, wi, StopsEarly(w));
    FilterWidth(items, w, wi, |t.columns|);
    full := UpTo(WantedRows(t, items, w), StopsEarly(w));
  }

  /** The rows that a SELECT finds on an active table whose caches match. */
  lemma FoundRows(s: State, t: Table, w: Where) returns (full: seq<Row>)
    requires GoodTable(t) && GoodFile(t, FileOf(s.files, t.path)) && s == ActiveState(s.files, t)
    requires w.Where? ==> WhereColumn(t, w) >= 0
    ensures FullRows(s, t, w) == Some(full) && AllOfWidth(full, |t.columns|)
    ensures RowsFor(t, ItemsOf(FileOf(s.files, t.path)), w, full)
  {
    var b := FileOf(s.files, t.path);
    var items := ItemsOf(b);
    PathConditions(w);
    if OnId(w) {
      full := IdRows(t, b, w, ParseU64(w.value).value);
    } else {
      full := ScannedRows(t, b, w);
    }
  }

  /**
    Every SELECT on a sound table. It is refused exactly when its WHERE clause names an
    unknown column, or else lists one. Otherwise it shows the rows that its WHERE clause
    wants: all columns as they are, or the first column with each listed name.
   */
  lemma SelectMeaning(s: State, t: Table, q: SelectStatement) returns (full: seq<Row>)
    requires Sound(s, t)
    ensures var a := Select(s, t, q).1;
      if q.where_.Where? && !HasColumn(t.columns, q.where_.column) then a == SelectRefused(LinearPathFailed)
      else if ListsUnknown(t, q) then a == SelectRefused(UnknownSelected)
      else a.Answer? && Shown(t, q, full, a.columns, a.rows) && RowsFor(t, RowsIn(s, t), q.where_, full)
  {
    var o, w := OpenState(s, t), q.where_;
    SelectAfterActivation(s, t, q);
    full := [];
    if w.Where? {
      UnknownWhere(t, w);
    }
    if w.Where? && WhereColumn(t, w) < 0 {
      UnknownIsScanned(t, w);
    } else {
      full := FoundRows(o, t, w);
      PresentMeaning(t, q, full);
    }
  }

  lemma UnknownIsScanned(t: Table, w: Where)
    requires GoodTable(t) && w.Where? && WhereColumn(t, w) < 0
    ensures !OnId(w)
  {
    if SameName(w.column, "id") {
      SameNameColumns(t.columns, w.column, "id");
    }
  }

  /** The id of a row meets the comparison with v. */
  ghost predicate IdMeets(items: seq<Item>, idc: int, op: Op, v: int, row: Row) {
    exists i :: 0 <= i < |items| && items[i].row == row && NumbersMeet(IdOf(row, idc), op, v)
  }

  /**
    A number compared with the id column, in any letter case, on a file in any order: all
    columns of exactly the rows whose id meets it, in strictly ascending id order.
   */
  lemma SelectByIdMeaning(s: State, t: Table, column: string, value: string, op: Op, v: u64) returns (rows: seq<Row>)
    requires Sound(s, t) && SameLetters(column, "id") && IsNumber(value, v)
    ensures Select(s, t, SelectStatement(true, [], Where(column, value, op))).1 == Answer(t.columns, rows)
    ensures UpById(rows, IdColumn(t))
    ensures forall row :: row in rows <==> IdMeets(RowsIn(s, t), IdColumn(t), op, v, row)
  {
    var w, items, idc := Where(column, value, op), RowsIn(s, t), IdColumn(t);
    SoundFile(s, t);
    SameNameIff(column, "id");
    SameNameColumns(t.columns, column, "id");
    FirstColumnIff(t.columns, column);
    rows := SelectMeaning(s, t, SelectStatement(true, [], w));
    forall row ensures row in rows <==> IdMeets(items, idc, op, v, row) {
      forall i | 0 <= i < |items| ensures Wanted(t, items[i].row, w) <==> NumbersMeet(IdOf(items[i].row, idc), op, v) {
        IdIsWanted(t, items, i, column, value, op, v);
      }
    }
  }

  lemma IdIsWanted(t: Table, items: seq<Item>, i: nat, column: string, value: string, op: Op, v: u64)
    requires i < |items| && GoodItems(items, IdColumn(t), StudentColumn(t)) && IsNumber(value, v)
    requires forall p: nat :: FirstColumn(t.columns, column, p) <==> IdColumn(t) == p
    ensures Wanted(t, items[i].row, Where(column, value, op)) <==> NumbersMeet(IdOf(items[i].row, IdColumn(t)), op, v)
  {
    var row, idc := items[i].row, IdColumn(t);
    GoodItemsIffPairwise(items, idc, StudentColumn(t));
    assert GoodAlone(row, idc, StudentColumn(t));
    NumberIff(row[idc], IdOf(row, idc));
    NumbersMeetIff(row[idc], value, op, IdOf(row, idc), v);
    OneColumnDecides(t, row, column, value, op, idc);
  }

  lemma OneColumnDecides(t: Table, row: Row, column: string, value: string, op: Op, idc: nat)
    requires idc < |row| && forall p: nat :: FirstColumn(t.columns, column, p) <==> idc == p
    ensures Wanted(t, row, Where(column, value, op)) <==> Meets(row[idc], op, value)
  {
    assert FirstColumn(t.columns, column, idc);
  }
}
