/**
  Whole runs of the engine: the invariant that ties the active caches to the active
  file, and what follows from it.
 */
module Runs {
  import opened Entries
  import opened Text
  import opened RowLog
  import opened LogProofs
  import opened Migration
  import opened EngineSpec
  import opened Rebuild

  /** The tables of a database: columns by data path. */
  type Catalog = map<string, seq<string>>

  function TableAt(cat: Catalog, p: string): Table
    requires p in cat
  {
    Table(p, cat[p])
  }

  ghost predicate GoodTable(t: Table) {
    IdColumn(t) >= 0 && |t.columns| <= MAX_FIELDS
  }

  ghost predicate GoodFile(t: Table, b: string) {
    && Clean(b)
    && GoodItems(ItemsOf(b), IdColumn(t), StudentColumn(t))
    && forall i :: 0 <= i < |ItemsOf(b)| ==> |ItemsOf(b)[i].row| == |t.columns|
  }

  /** The state in which t is active and every cache says what t's file says. */
  ghost function ActiveState(files: map<string, string>, t: Table): State {
    var items := ItemsOf(FileOf(files, t.path));
    State(files, Some(t.path), true, IndexOf(items, IdColumn(t)), MaxIdOf(items, IdColumn(t)),
          StudentsOf(items, StudentColumn(t)), if StudentColumn(t) >= 0 then StudentColumn(t) else -1)
  }

  /** The file once it is prepared. */
  function Opened(b: string): string {
    match Prepared(b)
    case None => b
    case Some(prepared) => prepared
  }

  /** A good file, or a text file that migration turns into one. */
  ghost predicate OpensGood(t: Table, b: string) {
    Prepared(b).Some? && GoodFile(t, Opened(b))
  }

  /** The largest id of a table, once its file is prepared. */
  ghost function MaxIdAt(files: map<string, string>, t: Table): u64 {
    MaxIdOf(ItemsOf(Opened(FileOf(files, t.path))), IdColumn(t))
  }

  /**
    The file of t is good or migrates to a good one, and if t is active, every cache says
    what the file says. Nothing is asked of other tables.
   */
  ghost predicate Sound(s: State, t: Table) {
    match s.path
    case None => GoodTable(t) && OpensGood(t, FileOf(s.files, t.path))
    case Some(p) =>
      if p == t.path then GoodTable(t) && p in s.files && GoodFile(t, s.files[p]) && s == ActiveState(s.files, t)
      else GoodTable(t) && OpensGood(t, FileOf(s.files, t.path))
  }

  /** The same of every table. */
  ghost predicate Inv(s: State, cat: Catalog) {
    forall p :: p in cat ==> Sound(s, TableAt(cat, p))
  }

  // ---- Activation ----

  lemma GoodOpensItself(t: Table, b: string)
    requires GoodFile(t, b)
    ensures Prepared(b) == Some(b) && Opened(b) == b && OpensGood(t, b)
  {
    CleanLooksBinary(b);
  }

  lemma SoundFile(s: State, t: Table)
    requires Sound(s, t)
    ensures GoodTable(t) && OpensGood(t, FileOf(s.files, t.path))
  {
    if s.path == Some(t.path) {
      GoodOpensItself(t, s.files[t.path]);
    }
  }

  /** The active state over the prepared file. */
  ghost function OpenState(s: State, t: Table): State {
    ActiveState(s.files[t.path := Opened(FileOf(s.files, t.path))], t)
  }

  /** What activation yields on a sound table, whatever was active before. */
  lemma ActivateGood(s: State, t: Table)
    requires Sound(s, t)
    ensures Activate(s, t) == (OpenState(s, t), true)
  {
    var b := Opened(FileOf(s.files, t.path));
    SoundFile(s, t);
    if s.path == Some(t.path) {
      GoodOpensItself(t, s.files[t.path]);
      assert s.files[t.path := b] == s.files;
    } else {
      BuildFromIffGood(b, 0, [], IdColumn(t), StudentColumn(t));
      assert [] + ItemsOf(b) == ItemsOf(b);
    }
  }

  lemma UpdateTwice(files: map<string, string>, p: string, b: string, b': string)
    ensures files[p := b][p := b'] == files[p := b']
  {
  }

  /** A table made active over a good file. */
  lemma ActiveIsSound(files: map<string, string>, t: Table)
    requires GoodTable(t) && t.path in files && GoodFile(t, files[t.path])
    ensures Sound(ActiveState(files, t), t)
  {
  }

  // ---- INSERT ----

  lemma {:induction false} PrintIsShort(n: nat, k: nat, limit: nat)
    requires k >= 1 && limit == Pow10(k) && n < limit
    ensures |Print(n)| <= k && NoNul(Print(n))
    decreases k
  {
    if n >= 10 {
      assert Pow10(k) == 10 * Pow10(k - 1);
      assert k > 1;
      PrintIsShort(n / 10, k - 1, Pow10(k - 1));
    }
  }

  function Pow10(k: nat): nat {
    if k == 0 then 1 else 10 * Pow10(k - 1)
  }

  lemma PrintedIdFits(n: u64)
    ensures |Print(n)| <= MAX_FIELD_BYTES && NoNul(Print(n))
  {
    assert Pow10(20) == 100000000000000000000 by {
      assert Pow10(10) == 10000000000;
      assert Pow10(11) == 100000000000 && Pow10(12) == 1000000000000 && Pow10(13) == 10000000000000;
      assert Pow10(14) == 100000000000000 && Pow10(15) == 1000000000000000 && Pow10(16) == 10000000000000000;
      assert Pow10(17) == 100000000000000000 && Pow10(18) == 1000000000000000000 && Pow10(19) == 10000000000000000000;
    }
    PrintIsShort(n, 20, Pow10(20));
  }

  predicate ValueFits(v: string) {
    NoNul(v) && |v| <= MAX_FIELD_BYTES
  }

  /** Values the reader will accept; the writer does not check. */
  predicate ValuesFit(vals: seq<string>) {
    forall i :: 0 <= i < |vals| ==> ValueFits(vals[i])
  }

  ghost predicate Each(P: string -> bool, row: Row) {
    forall i :: 0 <= i < |row| ==> P(row[i])
  }

  /** What holds of the values and of the blank holds of the filled row. */
  lemma {:induction false} FillKeeps(P: string -> bool, columns: seq<string>, cols: seq<string>, vals: seq<string>,
                                     i: nat, row: Row, given: set<int>)
    requires i <= |cols| == |vals| && |row| == |columns| && Each(P, vals) && Each(P, row)
    ensures var f := Fill(columns, cols, vals, i, row, given);
      f.Filled? ==> |f.row| == |columns| && Each(P, f.row)
    decreases |cols| - i
  {
    if i < |cols| {
      var target := ColumnIndex(columns, cols[i]);
      if target >= 0 && target !in given {
        var row' := if SameName(columns[target], "id") then row else row[target := vals[i]];
        FillKeeps(P, columns, cols, vals, i + 1, row', given + {target});
      }
    }
  }

  /** The row an INSERT is about to store, once all checks have passed. */
  ghost predicate Draws(s: State, t: Table, cols: seq<string>, vals: seq<string>, row: Row) {
    && |cols| == |vals| && IdColumn(t) >= 0
    && var f := Fill(t.columns, cols, vals, 0, BlankRow(t.columns), {});
      && f.Filled? && |f.row| == |t.columns|
      && StudentCheck(s, t, f) == None
      && row == f.row[IdColumn(t) := Print(NextId(s.counter))]
  }

  /** What holds of the values, of the blank and of the printed id holds of the drawn row. */
  lemma DrawnKeeps(P: string -> bool, s: State, t: Table, cols: seq<string>, vals: seq<string>, row: Row)
    requires Draws(s, t, cols, vals, row) && Each(P, vals) && P("") && P(Print(NextId(s.counter)))
    ensures Each(P, row)
  {
    FillKeeps(P, t.columns, cols, vals, 0, BlankRow(t.columns), {});
  }

  /** A drawn row carries the next id and a student number that the cache does not hold. */
  lemma DrawnRow(s: State, t: Table, cols: seq<string>, vals: seq<string>, row: Row)
    requires Draws(s, t, cols, vals, row)
    ensures |row| == |t.columns| && HasId(row, IdColumn(t)) && IdOf(row, IdColumn(t)) == NextId(s.counter)
    ensures StudentColumn(t) >= 0 ==> row[StudentColumn(t)] != ""
    ensures StudentColumn(t) >= 0 && s.studentColumn == StudentColumn(t) && s.students.Some? ==>
      row[StudentColumn(t)] !in s.students.value
  {
    ParseOfPrint(NextId(s.counter));
    DifferentColumns(t);
  }

  /** What storing a drawn row needs: it fits, carries the next id, and has a fresh student number. */
  ghost predicate FitToStore(s: State, t: Table, row: Row, id: u64) {
    && |row| == |t.columns| && Storable(row) && Writable(row)
    && HasId(row, IdColumn(t)) && IdOf(row, IdColumn(t)) == id
    && (StudentColumn(t) >= 0 ==> row[StudentColumn(t)] != "")
    && (StudentColumn(t) >= 0 && s.studentColumn == StudentColumn(t) && s.students.Some? ==>
          row[StudentColumn(t)] !in s.students.value)
  }

  lemma DrawnRowFits(s: State, t: Table, cols: seq<string>, vals: seq<string>, row: Row)
    requires Draws(s, t, cols, vals, row) && GoodTable(t) && ValuesFit(vals)
    ensures FitToStore(s, t, row, NextId(s.counter))
  {
    PrintedIdFits(NextId(s.counter));
    DrawnKeeps(ValueFits, s, t, cols, vals, row);
    DrawnRow(s, t, cols, vals, row);
    assert forall i :: 0 <= i < |row| ==> ValueFits(row[i]);
  }

  lemma DifferentColumns(t: Table)
    ensures StudentColumn(t) >= 0 ==> StudentColumn(t) != IdColumn(t)
  {
    if StudentColumn(t) >= 0 && IdColumn(t) >= 0 {
      SameNameLength(t.columns[IdColumn(t)], "id");
      SameNameLength(t.columns[StudentColumn(t)], "student_no");
    }
  }

  // ---- INSERT on an active table ----

  /** The file after the row: clean, and good exactly when the drawn id is not stored yet. */
  lemma AppendedFile(t: Table, b: string, row: Row)
    requires GoodTable(t) && GoodFile(t, b) && |row| == |t.columns| && Storable(row)
    requires HasId(row, IdColumn(t))
    requires StudentColumn(t) >= 0 ==>
      row[StudentColumn(t)] != "" && row[StudentColumn(t)] !in StudentSet(ItemsOf(b), StudentColumn(t))
    ensures ItemsOf(b + EncodeRow(row)) == ItemsOf(b) + [Item(|b|, row)] && Clean(b + EncodeRow(row))
    ensures GoodFile(t, b + EncodeRow(row)) <==> IdOf(row, IdColumn(t)) !in IdsOf(ItemsOf(b), IdColumn(t))
  {
    AppendKeepsClean(b, row);
    CachesOfAppend(ItemsOf(b), Item(|b|, row), IdColumn(t), StudentColumn(t));
    var items, all := ItemsOf(b), ItemsOf(b) + [Item(|b|, row)];
    assert forall i :: 0 <= i < |all| ==> all[i] == if i < |items| then items[i] else Item(|b|, row);
  }

  /** The active state after one more row in the file. */
  lemma ActiveStateAppend(files: map<string, string>, t: Table, row: Row)
    requires t.path in files && Clean(files[t.path]) && Storable(row)
    ensures var b, idc, stc := files[t.path], IdColumn(t), StudentColumn(t);
      var a, id := ActiveState(files, t), IdOf(row, idc);
      ActiveState(files[t.path := b + EncodeRow(row)], t) == a.(
        files := files[t.path := b + EncodeRow(row)],
        index := Inserted(a.index, id, |b|),
        counter := if id > a.counter then id else a.counter,
        students := if stc < 0 then None else Some(a.students.value + {StudentOf(row, stc)}))
  {
    var b := files[t.path];
    AppendKeepsClean(b, row);
    CachesOfAppend(ItemsOf(b), Item(|b|, row), IdColumn(t), StudentColumn(t));
  }

  /** An id above the counter is in neither the file nor the index. */
  lemma AboveCounterIsFresh(files: map<string, string>, t: Table, id: u64)
    requires ActiveState(files, t).counter < id
    ensures id !in IdsOf(ItemsOf(FileOf(files, t.path)), IdColumn(t)) && !HasKey(ActiveState(files, t).index, id)
  {
    var items := ItemsOf(FileOf(files, t.path));
    if id in IdsOf(items, IdColumn(t)) {
      MaxIdBound(items, IdColumn(t), id);
    }
    IndexKeys(items, IdColumn(t), id);
  }

  /** Matching caches, a fresh id and student number: the row is stored, and the caches match again. */
  lemma StoreMatches(s: State, t: Table, row: Row, id: u64)
    requires t.path in s.files && Clean(s.files[t.path]) && s == ActiveState(s.files, t)
    requires s.counter < id && FitToStore(s, t, row, id)
    ensures var b' := s.files[t.path] + EncodeRow(row);
      && Store(s.(counter := id), t, row) == (ActiveState(s.files[t.path := b'], t), Stored(row))
      && ActiveState(s.files[t.path := b'], t).counter == id
  {
    AboveCounterIsFresh(s.files, t, id);
    ActiveStateAppend(s.files, t, row);
  }

  /** The same over a good file, which stays good. */
  lemma StoreGood(s: State, t: Table, row: Row, id: u64)
    requires GoodTable(t) && t.path in s.files && GoodFile(t, s.files[t.path])
    requires s == ActiveState(s.files, t) && s.counter < id && FitToStore(s, t, row, id)
    ensures var b' := s.files[t.path] + EncodeRow(row);
      && GoodFile(t, b')
      && Store(s.(counter := id), t, row) == (ActiveState(s.files[t.path := b'], t), Stored(row))
      && ActiveState(s.files[t.path := b'], t).counter == id
  {
    StoreMatches(s, t, row, id);
    AboveCounterIsFresh(s.files, t, id);
    AppendedFile(t, s.files[t.path], row);
  }

  predicate EarlyRefusal(o: InsertOutcome) {
    o.Refused? && o.error in {UnknownColumn, RepeatedColumn, StudentNoMissing, StudentNoEmpty, StudentNoTaken}
  }

  /** Either a row is drawn, or the statement is refused before an id is drawn and nothing changes. */
  lemma InsertActiveCases(s: State, t: Table, cols: seq<string>, vals: seq<string>) returns (drawn: Option<Row>)
    requires IdColumn(t) >= 0 && |cols| == |vals|
    ensures drawn.Some? ==> Draws(s, t, cols, vals, drawn.value) && |drawn.value| == |t.columns|
    ensures drawn.Some? ==> InsertActive(s, t, cols, vals) == Store(s.(counter := NextId(s.counter)), t, drawn.value)
    ensures drawn.None? ==> InsertActive(s, t, cols, vals).0 == s && EarlyRefusal(InsertActive(s, t, cols, vals).1)
    ensures drawn.None? ==> forall row :: !Draws(s, t, cols, vals, row)
  {
    var f := Fill(t.columns, cols, vals, 0, BlankRow(t.columns), {});
    if f.Filled? && StudentCheck(s, t, f) == None {
      drawn := Some(f.row[IdColumn(t) := Print(NextId(s.counter))]);
    } else {
      drawn := None;
    }
  }

  /** The same for values within limits, without the details of the row. */
  lemma InsertActiveFits(s: State, t: Table, cols: seq<string>, vals: seq<string>) returns (drawn: Option<Row>)
    requires GoodTable(t) && |cols| == |vals| && ValuesFit(vals)
    ensures drawn.Some? ==> FitToStore(s, t, drawn.value, NextId(s.counter))
    ensures drawn.Some? ==> InsertActive(s, t, cols, vals) == Store(s.(counter := NextId(s.counter)), t, drawn.value)
    ensures drawn.None? ==> InsertActive(s, t, cols, vals).0 == s && EarlyRefusal(InsertActive(s, t, cols, vals).1)
  {
    drawn := InsertActiveCases(s, t, cols, vals);
    if drawn.Some? {
      DrawnRowFits(s, t, cols, vals, drawn.value);
    }
  }

  lemma NextIdIsLarger(counter: u64)
    ensures counter < U64_LIMIT - 1 ==> NextId(counter) == counter + 1
    ensures counter == U64_LIMIT - 1 ==> NextId(counter) == 0
  {
  }

  /** INSERT on an active table whose caches match its file: a stored row keeps them matching. */
  lemma InsertActiveGood(s: State, t: Table, cols: seq<string>, vals: seq<string>, id: u64)
    returns (stored: Option<Row>)
    requires GoodTable(t) && t.path in s.files && GoodFile(t, s.files[t.path])
    requires s == ActiveState(s.files, t) && s.counter < id == NextId(s.counter)
    requires |cols| == |vals| && ValuesFit(vals)
    ensures stored.Some? ==> Storable(stored.value) && var b' := s.files[t.path] + EncodeRow(stored.value);
      && GoodFile(t, b')
      && InsertActive(s, t, cols, vals).0 == ActiveState(s.files[t.path := b'], t)
      && InsertActive(s, t, cols, vals).1 == Stored(stored.value)
      && ActiveState(s.files[t.path := b'], t).counter == id
    ensures stored.None? ==> InsertActive(s, t, cols, vals).0 == s && EarlyRefusal(InsertActive(s, t, cols, vals).1)
  {
    stored := InsertActiveFits(s, t, cols, vals);
    if stored.Some? {
      StoreGood(s, t, stored.value, id);
    }
  }

  lemma InsertAfterActivation(s: State, a: State, t: Table, cols: seq<string>, vals: seq<string>)
    requires Activate(s, t) == (a, true)
    ensures Insert(s, t, cols, vals)
         == if |cols| != |vals| then (s, Refused(CountMismatch)) else InsertActive(a, t, cols, vals)
  {
  }

  /** What INSERT does on a sound table, whatever was active before; id is the next id of the table. */
  lemma InsertGood(s: State, t: Table, cols: seq<string>, vals: seq<string>, id: u64) returns (stored: Option<Row>)
    requires Sound(s, t) && ValuesFit(vals)
    requires MaxIdAt(s.files, t) < id == NextId(MaxIdAt(s.files, t))
    ensures |cols| != |vals| ==> stored.None? && Insert(s, t, cols, vals) == (s, Refused(CountMismatch))
    ensures |cols| == |vals| && stored.None? ==>
      EarlyRefusal(Insert(s, t, cols, vals).1) && Insert(s, t, cols, vals).0 == OpenState(s, t)
    ensures stored.Some? ==> Storable(stored.value)
    ensures stored.Some? ==> var b' := Opened(FileOf(s.files, t.path)) + EncodeRow(stored.value);
      && GoodFile(t, b')
      && Insert(s, t, cols, vals).0 == ActiveState(s.files[t.path := b'], t)
      && Insert(s, t, cols, vals).1 == Stored(stored.value)
      && ActiveState(s.files[t.path := b'], t).counter == id
  {
    var b := Opened(FileOf(s.files, t.path));
    SoundFile(s, t);
    ActivateGood(s, t);
    InsertAfterActivation(s, OpenState(s, t), t, cols, vals);
    stored := None;
    if |cols| == |vals| {
      stored := InsertActiveGood(OpenState(s, t), t, cols, vals, id);
      if stored.Some? {
        UpdateTwice(s.files, t.path, b, b + EncodeRow(stored.value));
      }
    }
  }
}
