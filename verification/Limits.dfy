/**
  Where the guarantees stop, exactly: what a failed activation leaves, when a refused
  INSERT has written its row, and when an id or a student number enters a file twice.
 */
module Limits {
  import opened Entries
  import opened Text
  import opened RowLog
  import opened LogProofs
  import opened Migration
  import opened Syntax
  import opened EngineSpec
  import opened Rebuild
  import opened Runs

  const LAST_ID: u64 := U64_LIMIT - 1

  // ---- Activation ----

  /** Nothing is looked at but the path and the ready flag. */
  predicate TakenAsActive(s: State, t: Table) {
    s.path == Some(t.path) && s.ready
  }

  /**
    A failed activation is followed by a successful one that does nothing, unless it
    failed in a migration before any table had been indexed.
   */
  lemma FailedActivationSticks(s: State, t: Table)
    requires !Activate(s, t).1
    ensures var s' := Activate(s, t).0;
      if s.ready || PrepareFile(s.files, t.path).Some? then Activate(s', t) == (s', true) else !Activate(s', t).1
  {
  }

  /** The state in which an activation leaves what it has not yet built. */
  ghost function Switched(s: State, t: Table): State {
    State(s.files, Some(t.path), s.ready, s.index, s.counter, None, -1)
  }

  /** Whether some row of the text is too long to be written, so that the file cannot be migrated. */
  ghost predicate Unmigratable(b: string) {
    !LooksBinary(b) && exists i :: 0 <= i < |TextRows(b, 0)| && HasHugeField(TextRows(b, 0)[i])
  }

  ghost predicate HasHugeField(row: Row) {
    exists k :: 0 <= k < |row| && |row[k]| >= 0x1_0000_0000
  }

  lemma UnmigratableIff(b: string)
    ensures Unmigratable(b) <==> Prepared(b).None?
  {
    forall i | 0 <= i < |TextRows(b, 0)| ensures Writable(TextRows(b, 0)[i]) <==> !HasHugeField(TextRows(b, 0)[i]) {
    }
  }

  /**
    What an activation that reads no rows leaves, over every state: nothing is done for a
    table taken as active; a file that cannot be migrated stays as it is, with the index
    and the counter of the table before; without an id column the file is prepared and the
    index empty. Only the first succeeds, and a failed activation refuses its statement.
   */
  lemma ActivationCases(s: State, t: Table, cols: seq<string>, vals: seq<string>, q: SelectStatement)
    requires TakenAsActive(s, t) || Unmigratable(FileOf(s.files, t.path)) || IdColumn(t) < 0
    ensures var (a, ok) := Activate(s, t);
      && (ok <==> TakenAsActive(s, t))
      && a == (if TakenAsActive(s, t) then s
               else if Unmigratable(FileOf(s.files, t.path)) then Switched(s, t)
               else Switched(s, t).(files := s.files[t.path := Opened(FileOf(s.files, t.path))], ready := true,
                                    index := []))
      && (!ok && |cols| == |vals| ==> Insert(s, t, cols, vals) == (a, Refused(ActivationFailed)))
      && (!ok ==> Select(s, t, q) == (a, SelectRefused(SelectActivationFailed)))
  {
    UnmigratableIff(FileOf(s.files, t.path));
  }

  /** t active over the prepared file, with the given caches. */
  ghost function Indexed(s: State, t: Table, caches: Build, counter: u64): State {
    State(s.files[t.path := Opened(FileOf(s.files, t.path))], Some(t.path), true, caches.index, counter,
          caches.students, if StudentColumn(t) >= 0 then StudentColumn(t) else -1)
  }

  /**
    The state after an activation that reads the file: the caches of the rows before the
    first bad one, k of them, and the counter of the table before unless all is well.
   */
  lemma ActivationStops(s: State, t: Table) returns (k: nat)
    requires !TakenAsActive(s, t) && IdColumn(t) >= 0 && Prepared(FileOf(s.files, t.path)).Some?
    ensures var b, idc, stc := Opened(FileOf(s.files, t.path)), IdColumn(t), StudentColumn(t);
      var items := ItemsOf(b); var ok := k == |items| && ScanFrom(b, 0).ok;
      var counter := if ok then MaxIdOf(items, idc) else s.counter;
      && FirstBad(items, k, idc, stc)
      && Activate(s, t) == (Indexed(s, t, StoppedAt(items, k, idc, stc), counter), ok)
  {
    var b := Opened(FileOf(s.files, t.path));
    k := BuildStops(b, 0, [], IdColumn(t), StudentColumn(t));
    assert [] + ItemsOf(b) == ItemsOf(b);
  }

  /**
    On a file that is clean once prepared: an activation that reads it reports success
    exactly when the rows are good, and exactly then the caches say what the file says.
   */
  lemma ActivationIsTruthfulIff(s: State, t: Table)
    requires !TakenAsActive(s, t) && IdColumn(t) >= 0
    requires Prepared(FileOf(s.files, t.path)).Some? && Clean(Opened(FileOf(s.files, t.path)))
    ensures var (a, ok) := Activate(s, t);
      && (ok <==> GoodItems(ItemsOf(Opened(FileOf(s.files, t.path))), IdColumn(t), StudentColumn(t)))
      && (ok <==> a == ActiveState(a.files, t))
  {
    var items := ItemsOf(Opened(FileOf(s.files, t.path)));
    var k := ActivationStops(s, t);
    FirstBadIsAll(items, k, IdColumn(t), StudentColumn(t));
    IndexSize(items, IdColumn(t));
    IndexSize(items[..k], IdColumn(t));
  }

  // ---- A refused INSERT that has written its row ----

  /** What can still go wrong once a row is drawn. */
  ghost predicate StoreTrouble(s: State, t: Table, row: Row)
    requires |row| == |t.columns|
  {
    || !Writable(row)
    || HasKey(s.index, NextId(s.counter))
    || (StudentColumn(t) >= 0 && NumberTrouble(s, row[StudentColumn(t)]))
  }

  /** A drawn row: its write, its id and its student number are tried in this order. */
  ghost function StoreError(s: State, t: Table, row: Row): InsertError
    requires |row| == |t.columns| && StoreTrouble(s, t, row)
  {
    if !Writable(row) then WriteFailed
    else if HasKey(s.index, NextId(s.counter)) then IdTaken
    else if s.students.None? then CacheFailed
    else LateStudentNoTaken
  }

  /** The student numbers once the row is stored. */
  ghost function NumbersAfter(s: State, t: Table, row: Row): Option<set<string>>
    requires |row| == |t.columns| && !StoreTrouble(s, t, row)
  {
    if StudentColumn(t) < 0 then s.students else Some(s.students.value + {row[StudentColumn(t)]})
  }

  ghost predicate NumberTrouble(s: State, number: string) {
    s.students.None? || number in s.students.value
  }

  /** The index once a row with the given id has been written behind b. */
  ghost function IndexAfter(index: seq<Entry>, id: u64, b: string, row: Row): seq<Entry> {
    if Writable(row) && !HasKey(index, id) then Inserted(index, id, |b|) else index
  }

  /**
    Whatever the state, a drawn row goes to the file, and the outcome says what trouble
    came after, if any. The ids drawn are consecutive, but for the wrap to 0.
   */
  lemma DrawnOutcome(s: State, t: Table, cols: seq<string>, vals: seq<string>, row: Row)
    requires Draws(s, t, cols, vals, row)
    ensures var (s', r) := InsertActive(s, t, cols, vals);
      && |row| == |t.columns|
      && s'.files == s.files[t.path := FileOf(s.files, t.path) + EncodeRow(row)]
      && s'.counter == NextId(s.counter) == (if s.counter == 0xFFFF_FFFF_FFFF_FFFF then 0 else s.counter + 1)
      && s'.index == IndexAfter(s.index, NextId(s.counter), FileOf(s.files, t.path), row)
      && r == (if StoreTrouble(s, t, row) then Refused(StoreError(s, t, row)) else Stored(row))
      && s'.students == (if StoreTrouble(s, t, row) then s.students else NumbersAfter(s, t, row))
      && s'.path == s.path && s'.ready == s.ready && s'.studentColumn == s.studentColumn
  {
    DrawnIsStored(s, t, cols, vals, row);
    StoreOutcome(s.(counter := NextId(s.counter)), t, row);
    NextIdIsLarger(s.counter);
  }

  lemma DrawnIsStored(s: State, t: Table, cols: seq<string>, vals: seq<string>, row: Row)
    requires Draws(s, t, cols, vals, row)
    ensures |row| == |t.columns| && InsertActive(s, t, cols, vals) == Store(s.(counter := NextId(s.counter)), t, row)
  {
  }

  /** The last three steps of INSERT, over any state. */
  lemma StoreOutcome(s: State, t: Table, row: Row)
    requires |row| == |t.columns|
    ensures var (s', r) := Store(s, t, row);
      var trouble := StudentColumn(t) >= 0 && NumberTrouble(s, row[StudentColumn(t)]);
      && s'.files == s.files[t.path := FileOf(s.files, t.path) + EncodeRow(row)]
      && s'.counter == s.counter
      && s'.index == IndexAfter(s.index, s.counter, FileOf(s.files, t.path), row)
      && (r == Stored(row) <==> Writable(row) && !HasKey(s.index, s.counter) && !trouble)
      && (!Writable(row) ==> r == Refused(WriteFailed))
      && (Writable(row) && HasKey(s.index, s.counter) ==> r == Refused(IdTaken))
      && (Writable(row) && !HasKey(s.index, s.counter) && trouble ==>
            r == Refused(if s.students.None? then CacheFailed else LateStudentNoTaken))
      && (r.Refused? ==> s'.students == s.students)
      && (r.Stored? ==> s'.students == if StudentColumn(t) < 0 then s.students
                                       else Some(s.students.value + {row[StudentColumn(t)]}))
      && s'.path == s.path && s'.ready == s.ready && s'.studentColumn == s.studentColumn
  {
  }

  lemma LongerFile(b: string, row: Row)
    ensures b + EncodeRow(row) != b
  {
    assert |b + EncodeRow(row)| >= |b| + 4;
  }

  /** A statement that draws a row and then meets trouble. */
  ghost predicate DrawsIntoTrouble(s: State, t: Table, cols: seq<string>, vals: seq<string>) {
    exists row :: Draws(s, t, cols, vals, row) && |row| == |t.columns| && StoreTrouble(s, t, row)
  }

  /**
    Over every state: a refused INSERT leaves everything as it was, unless it drew a row
    and then met trouble; exactly then its row is in the file.
   */
  lemma RefusedInsertWritesIff(s: State, t: Table, cols: seq<string>, vals: seq<string>)
    requires |cols| == |vals|
    ensures var (s', r) := InsertActive(s, t, cols, vals);
      && (r.Refused? && s' != s <==> DrawsIntoTrouble(s, t, cols, vals))
      && (r.Refused? && s' != s ==> FileOf(s'.files, t.path) != FileOf(s.files, t.path))
  {
    if IdColumn(t) >= 0 {
      var drawn := InsertActiveCases(s, t, cols, vals);
      if drawn.Some? {
        DrawnOutcome(s, t, cols, vals, drawn.value);
        LongerFile(FileOf(s.files, t.path), drawn.value);
      }
    }
  }

  // ---- The id counter ----

  /** The table already holds id 0 and the counter is about to wrap to it. */
  ghost predicate WrapsOntoStoredId(s: State, t: Table) {
    s.counter == LAST_ID && 0 in IdsOf(ItemsOf(FileOf(s.files, t.path)), IdColumn(t))
  }

  /** On an active table with matching caches the next id is taken exactly when it has wrapped onto a stored 0. */
  lemma NextIdTakenIff(s: State, t: Table, id: u64)
    requires s == ActiveState(s.files, t) && id == NextId(s.counter)
    ensures id in IdsOf(ItemsOf(FileOf(s.files, t.path)), IdColumn(t)) <==> WrapsOntoStoredId(s, t)
    ensures HasKey(s.index, id) <==> WrapsOntoStoredId(s, t)
  {
    var items, idc := ItemsOf(FileOf(s.files, t.path)), IdColumn(t);
    NextIdIsLarger(s.counter);
    if id in IdsOf(items, idc) {
      MaxIdBound(items, idc, id);
    }
    IndexKeys(items, idc, id);
  }

  /** With matching caches only a field of 2^32 bytes or the wrap is trouble. */
  lemma TroubleIff(s: State, t: Table, cols: seq<string>, vals: seq<string>, row: Row)
    requires s == ActiveState(s.files, t) && Draws(s, t, cols, vals, row)
    ensures |row| == |t.columns| && (StoreTrouble(s, t, row) <==> !Writable(row) || WrapsOntoStoredId(s, t))
  {
    NextIdTakenIff(s, t, NextId(s.counter));
    DrawnRow(s, t, cols, vals, row);
  }

  /**
    On an active table with matching caches a refused INSERT leaves everything as it was,
    unless it draws a row with a field of 2^32 bytes, or draws one while the counter wraps
    onto a stored id.
   */
  lemma RefusedInsertChangesNothingIff(s: State, t: Table, cols: seq<string>, vals: seq<string>)
    requires Sound(s, t) && s.path == Some(t.path) && |cols| == |vals|
    ensures var (s', r) := Insert(s, t, cols, vals);
      r.Refused? && s' != s <==>
        exists row :: Draws(s, t, cols, vals, row) && (!Writable(row) || WrapsOntoStoredId(s, t))
  {
    InsertAfterActivation(s, s, t, cols, vals);
    RefusedInsertWritesIff(s, t, cols, vals);
    forall row | Draws(s, t, cols, vals, row)
      ensures |row| == |t.columns| && (StoreTrouble(s, t, row) <==> !Writable(row) || WrapsOntoStoredId(s, t))
    {
      TroubleIff(s, t, cols, vals, row);
    }
  }

  /**
    A row that passed all checks is stored exactly unless the counter wraps onto a
    stored id; then it is refused with the row already in the file, which is no longer
    good. The caches match the file afterwards exactly when the counter did not wrap.
   */
  lemma StoredIffNoWrapOntoStoredId(s: State, t: Table, cols: seq<string>, vals: seq<string>, row: Row, id: u64)
    requires GoodTable(t) && t.path in s.files && GoodFile(t, s.files[t.path]) && s == ActiveState(s.files, t)
    requires Draws(s, t, cols, vals, row) && ValuesFit(vals) && id == NextId(s.counter)
    ensures var (s', r) := InsertActive(s, t, cols, vals);
      && r == (if WrapsOntoStoredId(s, t) then Refused(IdTaken) else Stored(row))
      && FileOf(s'.files, t.path) == s.files[t.path] + EncodeRow(row)
      && (GoodFile(t, FileOf(s'.files, t.path)) <==> !WrapsOntoStoredId(s, t))
      && (s' == ActiveState(s'.files, t) <==> s.counter < LAST_ID)
  {
    DrawnRowFits(s, t, cols, vals, row);
    DrawnOutcome(s, t, cols, vals, row);
    TroubleIff(s, t, cols, vals, row);
    NextIdTakenIff(s, t, id);
    AppendedFile(t, s.files[t.path], row);
    DrawnIsStored(s, t, cols, vals, row);
    NextIdIsLarger(s.counter);
    if s.counter < LAST_ID {
      StoreMatches(s, t, row, id);
    } else {
      ActiveStateAppend(s.files, t, row);
    }
  }

  /** The last id can be stored without drawing 2^64 ids: a minus sign negates modulo 2^64. */
  lemma MinusOneIsTheLastId()
    ensures ParseU64("-1") == Some(LAST_ID)
  {
    assert "-1"[1..] == "1" && "1"[..0] == "";
    assert Decimal("1") == 1;
  }

  // ---- One id, or one student number, twice ----

  /** Some row has the id. */
  ghost predicate Holds(items: seq<Item>, idc: int, id: u64) {
    exists i :: 0 <= i < |items| && HasId(items[i].row, idc) && IdOf(items[i].row, idc) == id
  }

  /** The last row has the id of a row before it. */
  ghost predicate IdAgain(items: seq<Item>, idc: int)
    requires items != []
  {
    var n := |items| - 1;
    HasId(items[n].row, idc) && Holds(items[..n], idc, IdOf(items[n].row, idc))
  }

  /** The last row has the student number of a row before it. */
  ghost predicate NumberAgain(items: seq<Item>, stc: int)
    requires items != []
  {
    var n := |items| - 1;
    exists i :: 0 <= i < n && StudentOf(items[i].row, stc) == StudentOf(items[n].row, stc)
  }

  lemma HoldsIff(items: seq<Item>, idc: int, stc: int, id: u64)
    requires GoodItems(items, idc, stc)
    ensures Holds(items, idc, id) <==> id in IdsOf(items, idc)
  {
    InIds(items, idc, id);
    GoodItemsIffPairwise(items, idc, stc);
  }

  /**
    Over every state, on a clean file: the drawn id enters the file a second time exactly
    when a row already has it, and likewise the student number. The INSERT is then stored
    if the caches do not know of it, and refused with the row written if they do.
   */
  lemma SecondCopyIff(s: State, t: Table, cols: seq<string>, vals: seq<string>, row: Row)
    requires Draws(s, t, cols, vals, row) && Storable(row) && Clean(FileOf(s.files, t.path))
    ensures var (s', r) := InsertActive(s, t, cols, vals);
      var idc, stc, id := IdColumn(t), StudentColumn(t), NextId(s.counter);
      var items, after := ItemsOf(FileOf(s.files, t.path)), ItemsOf(FileOf(s'.files, t.path));
      && |row| == |t.columns| && |after| == |items| + 1
      && (IdAgain(after, idc) <==> Holds(items, idc, id))
      && (NumberAgain(after, stc) <==> StudentOf(row, stc) in StudentSet(items, stc))
      && (r == Stored(row) && IdAgain(after, idc) <==> !StoreTrouble(s, t, row) && Holds(items, idc, id))
      && (r == Refused(IdTaken) && IdAgain(after, idc) <==> HasKey(s.index, id) && Holds(items, idc, id))
      && (GoodItems(after, idc, stc) <==>
            GoodItems(items, idc, stc) && !Holds(items, idc, id)
            && (stc >= 0 ==> StudentOf(row, stc) !in StudentSet(items, stc)))
  {
    var b, idc, stc := FileOf(s.files, t.path), IdColumn(t), StudentColumn(t);
    var items, item := ItemsOf(b), Item(|b|, row);
    DrawnOutcome(s, t, cols, vals, row);
    DrawnRow(s, t, cols, vals, row);
    AppendKeepsClean(b, row);
    CachesOfAppend(items, item, idc, stc);
    LastOf(items, item);
    InStudents(items, stc, StudentOf(row, stc));
    if GoodItems(items, idc, stc) {
      HoldsIff(items, idc, stc, NextId(s.counter));
    }
  }

  lemma LastOf(items: seq<Item>, item: Item)
    ensures var all := items + [item]; all[|all| - 1] == item && all[..|all| - 1] == items
    ensures forall i :: 0 <= i < |items| ==> (items + [item])[i] == items[i]
  {
  }

  /**
    An INSERT after a failed activation draws the id behind that of the table that was
    active before. It is refused, its row written, exactly when one of the k rows read
    before the bad row has that id; otherwise it is stored, and the id or the student
    number is in the file twice exactly when any row already had it.
   */
  lemma InsertAfterFailedActivation(s: State, t: Table, cols: seq<string>, vals: seq<string>, row: Row) returns (k: nat)
    requires !TakenAsActive(s, t) && IdColumn(t) >= 0 && !Activate(s, t).1
    requires Prepared(FileOf(s.files, t.path)).Some? && Clean(Opened(FileOf(s.files, t.path)))
    requires Draws(Activate(s, t).0, t, cols, vals, row) && Storable(row) && |cols| == |vals|
    ensures var a := Activate(s, t).0; var (s', r) := Insert(a, t, cols, vals);
      var idc, stc, id := IdColumn(t), StudentColumn(t), NextId(s.counter);
      var items, after := ItemsOf(FileOf(a.files, t.path)), ItemsOf(FileOf(s'.files, t.path));
      && k < |items| && FirstBad(items, k, idc, stc) && |after| == |items| + 1
      && r == (if Holds(items[..k], idc, id) then Refused(IdTaken) else Stored(row))
      && (IdAgain(after, idc) <==> Holds(items, idc, id))
      && (NumberAgain(after, stc) <==> StudentOf(row, stc) in StudentSet(items, stc))
  {
    k := ActivationStops(s, t);
    var a, idc, stc, id := Activate(s, t).0, IdColumn(t), StudentColumn(t), NextId(s.counter);
    var items := ItemsOf(FileOf(a.files, t.path));
    InsertAfterActivation(a, a, t, cols, vals);
    DrawnOutcome(a, t, cols, vals, row);
    DrawnRow(a, t, cols, vals, row);
    SecondCopyIff(a, t, cols, vals, row);
    IndexKeys(items[..k], idc, id);
    HoldsIff(items[..k], idc, stc, id);
  }
}
