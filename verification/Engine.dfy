/**
  The engine: the data files and the mutable global state of the storage layer, with the
  operations that activate a table, insert a row and answer a query.
 */
module Engine {
  import opened Entries
  import opened Text
  import opened RowLog
  import opened Caches
  import opened Syntax
  import Migration
  import Spec = EngineSpec
  import RangeScan
  import Queries

  type Table = Spec.Table

  class Engine {
    var files: map<string, string>
    var path: Option<string>
    var ready: bool
    const caches: Caches
    var counter: u64
    var studentColumn: int

    ghost predicate Valid()
      reads this, caches, caches.Repr
    {
      this !in caches.Repr && caches.Valid()
    }

    /** The state that the operations are specified on. */
    ghost function Snapshot(): Spec.State
      requires Valid()
      reads this, caches, caches.Repr
    {
      Spec.State(files, path, ready, caches.Ids(), counter, caches.Students(), studentColumn)
    }

    constructor (files: map<string, string>, hash: string -> nat)
      ensures Valid() && fresh(caches.Repr)
      ensures Snapshot() == Spec.Started(files)
    {
      this.files, path, ready, counter, studentColumn := files, None, false, 0, -1;
      caches := new Caches(hash);
    }

    // ---- Activation ----

    /** Creates a missing file and migrates a text one. */
    method PrepareFile(p: string) returns (ok: bool)
      requires Valid()
      modifies this`files
      ensures Valid() && Snapshot() == old(Snapshot()).(files := files)
      ensures match Spec.PrepareFile(old(files), p)
              case Some(files') => ok && files == files' && p in files
              case None => !ok && files == old(files)
    {
      var prepared := PreparedFiles(files, p);
      ok := prepared.Some?;
      if ok {
        files := prepared.value;
      }
    }

    /** An empty index takes the place of the old one. */
    method NewIndex()
      requires Valid()
      modifies this`ready, caches.Repr
      ensures Valid() && fresh(caches.Repr - old(caches.Repr))
      ensures Snapshot() == old(Snapshot()).(ready := true, index := [])
    {
      caches.ResetIndex();
      ready := true;
    }

    /** The column of the student numbers that will be cached. */
    method SetStudentColumn(stc: int)
      requires Valid() && studentColumn == -1
      modifies this`studentColumn
      ensures Valid() && Snapshot() == old(Snapshot()).(studentColumn := if stc >= 0 then stc else -1)
    {
      if stc >= 0 {
        studentColumn := stc;
      }
    }

    /** The scan of the file; the counter follows the largest id only if it succeeds. */
    method ScanFile(p: string, idc: int, stc: int) returns (ok: bool)
      requires Valid() && p in files && caches.Students() == None && caches.Ids() == []
      modifies this`counter, caches.Repr
      ensures Valid() && fresh(caches.Repr - old(caches.Repr))
      ensures
        var empty := Spec.Build([], if stc >= 0 then Some({}) else None, 0);
        var (acc, built) := Spec.BuildFrom(files[p], 0, empty, idc, stc);
        var maxId := if built then acc.maxId else old(counter);
        ok == built
        && Snapshot() == old(Snapshot()).(index := acc.index, students := acc.students, counter := maxId)
    {
      var maxId;
      ok, maxId := caches.FillFrom(files[p], idc, stc);
      if ok {
        counter := maxId;
      }
    }

    /** The scan of the file into empty caches. */
    method FillCaches(t: Table, idc: int) returns (ok: bool)
      requires Valid() && t.path in files && idc == Spec.IdColumn(t)
      requires caches.Students() == None && caches.Ids() == [] && studentColumn == -1
      modifies this`studentColumn, this`counter, caches.Repr
      ensures Valid() && fresh(caches.Repr - old(caches.Repr))
      ensures (Snapshot(), ok) == Spec.CachesFrom(old(Snapshot()), t, files[t.path])
    {
      var stc := FindColumnIndex(t.columns, "student_no");
      SetStudentColumn(stc);
      ok := ScanFile(t.path, idc, stc);
    }

    /** A new index, then the scan of the file. */
    method RebuildCaches(t: Table) returns (ok: bool)
      requires Valid() && t.path in files && caches.Students() == None && studentColumn == -1
      modifies this, caches.Repr
      ensures Valid() && fresh(caches.Repr - old(caches.Repr))
      ensures (Snapshot(), ok) == Spec.Rebuilt(old(Snapshot()), t, old(files)[t.path])
    {
      NewIndex();
      var idc := FindColumnIndex(t.columns, "id");
      ok := false;
      if idc >= 0 {
        ok := FillCaches(t, idc);
      }
    }

    /** Forgets the student numbers of the table that was active. */
    method SwitchTo(p: string)
      requires Valid()
      modifies this`path, this`studentColumn, caches.Repr
      ensures Valid() && fresh(caches.Repr - old(caches.Repr))
      ensures Snapshot() == old(Snapshot()).(path := Some(p), students := None, studentColumn := -1)
    {
      studentColumn := -1;
      caches.DropStudents();
      path := Some(p);
    }

    /** Prepares the file and builds the caches from it. */
    method OpenTable(t: Table) returns (ok: bool)
      requires Valid() && caches.Students() == None && studentColumn == -1
      modifies this, caches.Repr
      ensures Valid() && fresh(caches.Repr - old(caches.Repr))
      ensures match Spec.PrepareFile(old(files), t.path)
              case None => !ok && Snapshot() == old(Snapshot())
              case Some(files') =>
                (Snapshot(), ok) == Spec.Rebuilt(old(Snapshot()).(files := files'), t, files'[t.path])
    {
      ok := PrepareFile(t.path);
      if ok {
        ok := RebuildCaches(t);
      }
    }

    /** Makes a table the active one; nothing happens when its path is active and an index is ready. */
    method Activate(t: Table) returns (ok: bool)
      requires Valid()
      modifies this, caches.Repr
      ensures Valid() && fresh(caches.Repr - old(caches.Repr))
      ensures (Snapshot(), ok) == Spec.Activate(old(Snapshot()), t)
    {
      ok := true;
      if path != Some(t.path) || !ready {
        SwitchTo(t.path);
        ok := OpenTable(t);
      }
    }

    // ---- INSERT ----

    /** The checks on the student number before an id is drawn. */
    method CheckStudent(t: Table, f: Spec.Filled) returns (error: Option<Spec.InsertError>)
      requires Valid() && f.Filled? && |f.row| == |t.columns|
      ensures error == Spec.StudentCheck(Snapshot(), t, f)
    {
      var stc := FindColumnIndex(t.columns, "student_no");
      if stc < 0 {
        return None;
      }
      if stc !in f.given {
        return Some(Spec.StudentNoMissing);
      }
      if f.row[stc] == "" {
        return Some(Spec.StudentNoEmpty);
      }
      var taken := false;
      if studentColumn == stc {
        taken := caches.HasStudent(f.row[stc]);
      }
      error := if taken then Some(Spec.StudentNoTaken) else None;
    }

    /** The row goes to the end of the file of p. */
    method WriteRow(p: string, row: Row) returns (ok: bool, ref: RowRef)
      requires Valid()
      modifies this`files
      ensures Valid() && ok == Writable(row) && ref == |Spec.FileOf(old(files), p)|
      ensures Snapshot() == old(Snapshot()).(files := old(files)[p := Spec.FileOf(old(files), p) + EncodeRow(row)])
    {
      var file;
      ok, file, ref := AppendRow(if p in files then files[p] else "", row);
      files := files[p := file];
    }

    /** The new id goes to the index. */
    method IndexNewRow(ref: RowRef) returns (rc: int)
      requires Valid()
      modifies caches.Repr
      ensures Valid() && fresh(caches.Repr - old(caches.Repr))
      ensures rc == if HasKey(old(Snapshot()).index, counter) then 1 else 0
      ensures Snapshot() == if rc != 0 then old(Snapshot())
                            else old(Snapshot()).(index := Inserted(old(Snapshot()).index, counter, ref))
    {
      rc := caches.AddEntry(counter, ref);
    }

    /** The student number of the written row goes to its cache. */
    method CacheNumber(t: Table, row: Row) returns (outcome: Spec.InsertOutcome)
      requires Valid() && |row| == |t.columns|
      modifies caches.Repr
      ensures Valid() && fresh(caches.Repr - old(caches.Repr))
      ensures (Snapshot(), outcome) == Spec.CacheNumber(old(Snapshot()), t, row)
    {
      outcome := Spec.Stored(row);
      var stc := FindColumnIndex(t.columns, "student_no");
      if stc >= 0 {
        var res := caches.AddStudent(row[stc]);
        match res {
          case Inserted =>
          case Duplicate => outcome := Spec.Refused(Spec.LateStudentNoTaken);
          case NotReady => outcome := Spec.Refused(Spec.CacheFailed);
        }
      }
    }

    /** The written row enters both caches. */
    method CacheRow(t: Table, row: Row, ref: RowRef) returns (outcome: Spec.InsertOutcome)
      requires Valid() && |row| == |t.columns|
      modifies caches.Repr
      ensures Valid() && fresh(caches.Repr - old(caches.Repr))
      ensures var s := old(Snapshot());
        (Snapshot(), outcome) == if HasKey(s.index, s.counter) then (s, Spec.Refused(Spec.IdTaken))
          else Spec.CacheNumber(s.(index := Inserted(s.index, s.counter, ref)), t, row)
    {
      outcome := Spec.Refused(Spec.IdTaken);
      var rc := IndexNewRow(ref);
      if rc == 0 {
        outcome := CacheNumber(t, row);
      }
    }

    /** Write the row, then index it, then cache its student number; a late failure leaves the row in the file. */
    method StoreRow(t: Table, row: Row) returns (outcome: Spec.InsertOutcome)
      requires Valid() && |row| == |t.columns|
      modifies this`files, caches.Repr
      ensures Valid() && fresh(caches.Repr - old(caches.Repr))
      ensures (Snapshot(), outcome) == Spec.Store(old(Snapshot()), t, row)
    {
      outcome := Spec.Refused(Spec.WriteFailed);
      var ok, ref := WriteRow(t.path, row);
      if ok {
        outcome := CacheRow(t, row, ref);
      }
    }

    /** The next id; the counter wraps at 64 bits. */
    method NextId() returns (id: u64)
      requires Valid()
      modifies this`counter
      ensures Valid() && id == Spec.NextId(old(counter)) && Snapshot() == old(Snapshot()).(counter := id)
    {
      counter := (counter + 1) % U64_LIMIT;
      id := counter;
    }

    /** INSERT on the active table. */
    method InsertActive(t: Table, cols: seq<string>, vals: seq<string>) returns (outcome: Spec.InsertOutcome)
      requires Valid() && |cols| == |vals|
      modifies this, caches.Repr
      ensures Valid() && fresh(caches.Repr - old(caches.Repr))
      ensures (Snapshot(), outcome) == Spec.InsertActive(old(Snapshot()), t, cols, vals)
    {
      var f := FillRow(t.columns, cols, vals);
      if f.BadColumn? {
        return Spec.Refused(f.error);
      }
      var idc := FindColumnIndex(t.columns, "id");
      if idc < 0 {
        return Spec.Refused(Spec.NoIdColumn);
      }
      var error := CheckStudent(t, f);
      if error.Some? {
        return Spec.Refused(error.value);
      }
      var id := NextId();
      outcome := StoreRow(t, f.row[idc := Print(id)]);
    }

    /** INSERT: the table is activated first. */
    method Insert(t: Table, cols: seq<string>, vals: seq<string>) returns (outcome: Spec.InsertOutcome)
      requires Valid()
      modifies this, caches.Repr
      ensures Valid() && fresh(caches.Repr - old(caches.Repr))
      ensures (Snapshot(), outcome) == Spec.Insert(old(Snapshot()), t, cols, vals)
    {
      if |cols| != |vals| {
        return Spec.Refused(Spec.CountMismatch);
      }
      var ok := Activate(t);
      outcome := Spec.Refused(Spec.ActivationFailed);
      if ok {
        outcome := InsertActive(t, cols, vals);
      }
    }

    // ---- SELECT ----

    /** The rows before projection: by point lookup, by a walk along the leaves, or by a scan. */
    method SelectRows(t: Table, w: Where) returns (rows: Option<seq<Row>>)
      requires Valid()
      ensures rows == Spec.FullRows(Snapshot(), t, w)
    {
      var b := if t.path in files then files[t.path] else "";
      if w.Where? && SameName(w.column, "id") {
        var id := ParseU64(w.value);
        if id.Some? {
          if w.op == Equal {
            rows := RangeScan.SelectById(caches.index, b, |t.columns|, id.value);
          } else {
            rows := RangeScan.SelectByIdRange(caches.index, b, |t.columns|, w.op, id.value);
          }
          return;
        }
      }
      rows := Queries.SelectLinear(b, t, w);
    }

    /** SELECT: activation, the rows, then the selected columns. */
    method Select(t: Table, q: SelectStatement) returns (outcome: Spec.SelectOutcome)
      requires Valid()
      modifies this, caches.Repr
      ensures Valid() && fresh(caches.Repr - old(caches.Repr))
      ensures (Snapshot(), outcome) == Spec.Select(old(Snapshot()), t, q)
    {
      var ok := Activate(t);
      if !ok {
        return Spec.SelectRefused(Spec.SelectActivationFailed);
      }
      var rows := SelectRows(t, q.where_);
      if rows.None? {
        return Spec.SelectRefused(Spec.PathError(q.where_));
      }
      outcome := Queries.PresentRows(t, q, rows.value);
    }
  }

  /** The files once the file at p exists and is binary. */
  method PreparedFiles(files: map<string, string>, p: string) returns (prepared: Option<map<string, string>>)
    ensures prepared == Spec.PrepareFile(files, p)
    ensures prepared.Some? ==> p in prepared.value
  {
    var b := if p in files then files[p] else "";
    var ok := true;
    var binary := Migration.FileLooksBinary(b);
    if !binary {
      ok, b := Migration.Migrate(b);
    }
    prepared := if ok then Some(files[p := b]) else None;
  }

  /** The values go to their columns; a column that is unknown or given twice ends it. */
  method FillRow(columns: seq<string>, cols: seq<string>, vals: seq<string>) returns (f: Spec.Filled)
    requires |cols| == |vals|
    ensures f == Spec.Fill(columns, cols, vals, 0, Spec.BlankRow(columns), {})
  {
    var row: Row := Spec.BlankRow(columns);
    var given: set<int> := {};
    for i := 0 to |cols|
      invariant |row| == |columns|
      invariant Spec.Fill(columns, cols, vals, 0, Spec.BlankRow(columns), {})
             == Spec.Fill(columns, cols, vals, i, row, given)
    {
      var target := FindColumnIndex(columns, cols[i]);
      if target < 0 {
        return Spec.BadColumn(Spec.UnknownColumn);
      }
      if target in given {
        return Spec.BadColumn(Spec.RepeatedColumn);
      }
      given := given + {target};
      if !SameName(columns[target], "id") {
        row := row[target := vals[i]];
      }
    }
    f := Spec.Filled(row, given);
  }
}
