/**
  What an INSERT does, in terms of the letters of the statement and the rows of the file:
  which row it stores, or which of its checks refuses it.
 */
module InsertMeaning {
  import opened Text
  import opened RowLog
  import opened LogProofs
  import opened EngineSpec
  import opened Rebuild
  import opened Runs
  import opened InsertRows
  import opened Limits
  import opened SelectTheorems
  import opened Numbers

  // ---- The columns listed ----

  /** Both names stand for the same column. */
  ghost predicate SameColumn(columns: seq<string>, a: string, b: string) {
    exists p: nat :: FirstColumn(columns, a, p) && FirstColumn(columns, b, p)
  }

  ghost predicate RepeatsAt(columns: seq<string>, cols: seq<string>, i: nat)
    requires i < |cols|
  {
    exists j: nat :: j < i && SameColumn(columns, cols[j], cols[i])
  }

  /** The first listed name that is unknown, or stands for a column listed before. */
  ghost predicate BadAt(columns: seq<string>, cols: seq<string>, i: nat)
    requires i < |cols|
  {
    !HasColumn(columns, cols[i]) || RepeatsAt(columns, cols, i)
  }

  ghost predicate FirstBadColumn(columns: seq<string>, cols: seq<string>, i: nat) {
    i < |cols| && BadAt(columns, cols, i) && forall j: nat :: j < i ==> !BadAt(columns, cols, j)
  }

  ghost predicate NoBadColumn(columns: seq<string>, cols: seq<string>) {
    forall i: nat :: i < |cols| ==> !BadAt(columns, cols, i)
  }

  /** What was given before position i is what the names before it stand for. */
  ghost predicate GivenBy(columns: seq<string>, cols: seq<string>, i: nat, given: set<int>)
    requires i <= |cols|
  {
    forall c :: c in given <==> exists j: nat :: j < i && ColumnIndex(columns, cols[j]) == c
  }

  lemma BadStep(columns: seq<string>, cols: seq<string>, i: nat, given: set<int>)
    requires i < |cols| && GivenBy(columns, cols, i, given)
    ensures HasColumn(columns, cols[i]) <==> ColumnIndex(columns, cols[i]) >= 0
    ensures ColumnIndex(columns, cols[i]) >= 0 ==>
      (RepeatsAt(columns, cols, i) <==> ColumnIndex(columns, cols[i]) in given)
  {
    FirstColumnIff(columns, cols[i]);
    forall j: nat | j < i
      ensures SameColumn(columns, cols[j], cols[i]) <==>
        ColumnIndex(columns, cols[j]) == ColumnIndex(columns, cols[i]) >= 0
    {
      FirstColumnIff(columns, cols[j]);
      if ColumnIndex(columns, cols[j]) == ColumnIndex(columns, cols[i]) >= 0 {
        assert FirstColumn(columns, cols[j], ColumnIndex(columns, cols[j]));
      }
    }
  }

  /** Filling stops at the first bad name, with the error that it deserves. */
  lemma {:induction false} FillStops(columns: seq<string>, cols: seq<string>, vals: seq<string>, i: nat, row: Row,
                                     given: set<int>)
    requires i <= |cols| == |vals| && |row| == |columns| && GivenBy(columns, cols, i, given)
    requires forall j: nat :: j < i ==> !BadAt(columns, cols, j)
    ensures Fill(columns, cols, vals, i, row, given).Filled? ==> NoBadColumn(columns, cols)
    ensures forall k: nat :: FirstBadColumn(columns, cols, k) ==>
      Fill(columns, cols, vals, i, row, given)
      == BadColumn(if HasColumn(columns, cols[k]) then RepeatedColumn else UnknownColumn)
    ensures Fill(columns, cols, vals, i, row, given).BadColumn? ==> exists k: nat :: FirstBadColumn(columns, cols, k)
    decreases |cols| - i
  {
    if i < |cols| {
      var c := ColumnIndex(columns, cols[i]);
      BadStep(columns, cols, i, given);
      if c >= 0 && c !in given {
        var row' := if SameName(columns[c], "id") then row else row[c := vals[i]];
        FillStops(columns, cols, vals, i + 1, row', given + {c});
      } else {
        assert FirstBadColumn(columns, cols, i);
        forall k: nat | FirstBadColumn(columns, cols, k) ensures k == i {
        }
      }
    }
  }

  // ---- The student number ----

  /** Value j is given for the student number. */
  ghost predicate GivesNumber(t: Table, cols: seq<string>, j: nat) {
    j < |cols| && SameColumn(t.columns, cols[j], "student_no")
  }

  lemma GivesNumberIff(t: Table, cols: seq<string>, j: nat)
    requires j < |cols|
    ensures GivesNumber(t, cols, j) <==> StudentColumn(t) >= 0 && Target(t.columns, cols, j) == StudentColumn(t)
  {
    FirstColumnIff(t.columns, cols[j]);
    FirstColumnIff(t.columns, "student_no");
    if StudentColumn(t) >= 0 && Target(t.columns, cols, j) == StudentColumn(t) {
      assert FirstColumn(t.columns, "student_no", StudentColumn(t));
    }
  }

  /** The error that a statement with good columns gets for its student number. */
  ghost predicate NumberError(t: Table, cols: seq<string>, vals: seq<string>, known: set<string>, e: InsertError)
    requires |cols| == |vals|
  {
    match e
    case StudentNoMissing => HasColumn(t.columns, "student_no") && forall j: nat :: !GivesNumber(t, cols, j)
    case StudentNoEmpty => exists j: nat :: GivesNumber(t, cols, j) && vals[j] == ""
    case StudentNoTaken => exists j: nat :: GivesNumber(t, cols, j) && vals[j] != "" && vals[j] in known
    case _ => false
  }

  /** The student numbers that the cache of the table holds. */
  ghost function Known(s: State, t: Table): set<string> {
    if s.studentColumn == StudentColumn(t) && s.students.Some? then s.students.value else {}
  }

  lemma NumberErrorIff(s: State, t: Table, cols: seq<string>, vals: seq<string>, f: Filled)
    requires |cols| == |vals| && f.Filled? && f == Fill(t.columns, cols, vals, 0, BlankRow(t.columns), {})
    requires |f.row| == |t.columns|
    ensures forall e :: StudentCheck(s, t, f) == Some(e) <==> NumberError(t, cols, vals, Known(s, t), e)
  {
    var stc := StudentColumn(t);
    FillMeaning(t.columns, cols, vals, 0, BlankRow(t.columns), {});
    FillGiven(t.columns, cols, vals, 0, BlankRow(t.columns), {});
    FirstColumnIff(t.columns, "student_no");
    StudentIsNotId(t);
    forall j: nat | j < |cols|
      ensures GivesNumber(t, cols, j) <==> stc >= 0 && Target(t.columns, cols, j) == stc
      ensures GivesNumber(t, cols, j) ==> stc in f.given && f.row[stc] == vals[j]
    {
      GivesNumberIff(t, cols, j);
      if GivesNumber(t, cols, j) {
        assert Listed(t.columns, cols, 0, stc) && Carries(t.columns, cols, vals, f.row, j);
      }
    }
    if stc >= 0 && stc in f.given {
      var j: nat :| j < |cols| && Target(t.columns, cols, j) == stc;
      assert GivesNumber(t, cols, j);
    }
  }

  lemma StudentIsNotId(t: Table)
    ensures StudentColumn(t) >= 0 ==> !SameName(t.columns[StudentColumn(t)], "id")
  {
    if StudentColumn(t) >= 0 {
      NotIdColumn(t);
    }
  }

  // ---- An active table, whatever its caches ----

  /** The error of an INSERT that is refused before an id is drawn. */
  ghost predicate EarlyError(t: Table, cols: seq<string>, vals: seq<string>, known: set<string>, e: InsertError)
    requires |cols| == |vals|
  {
    if exists k: nat :: FirstBadColumn(t.columns, cols, k) then
      exists k: nat :: FirstBadColumn(t.columns, cols, k)
        && e == if HasColumn(t.columns, cols[k]) then RepeatedColumn else UnknownColumn
    else if !HasColumn(t.columns, "id") then e == NoIdColumn
    else NumberError(t, cols, vals, known, e)
  }

  /**
    Over every state: an INSERT into an active table is refused with such an error, and
    then changes nothing, or it draws a row.
   */
  lemma EarlyErrorIff(s: State, t: Table, cols: seq<string>, vals: seq<string>)
    requires |cols| == |vals|
    ensures forall e :: EarlyError(t, cols, vals, Known(s, t), e) ==> InsertActive(s, t, cols, vals) == (s, Refused(e))
    ensures (exists e :: EarlyError(t, cols, vals, Known(s, t), e)) <==> forall row :: !Draws(s, t, cols, vals, row)
  {
    var f := Fill(t.columns, cols, vals, 0, BlankRow(t.columns), {});
    FillStops(t.columns, cols, vals, 0, BlankRow(t.columns), {});
    FirstColumnIff(t.columns, "id");
    var known := Known(s, t);
    if f.BadColumn? {
      var k: nat :| FirstBadColumn(t.columns, cols, k);
      assert EarlyError(t, cols, vals, known, f.error);
    } else {
      NumberErrorIff(s, t, cols, vals, f);
      if IdColumn(t) < 0 {
        assert EarlyError(t, cols, vals, known, NoIdColumn);
      } else if StudentCheck(s, t, f) == None {
        assert Draws(s, t, cols, vals, f.row[IdColumn(t) := Print(NextId(s.counter))]);
      } else {
        assert EarlyError(t, cols, vals, known, StudentCheck(s, t, f).value);
      }
    }
  }

  // ---- A sound table ----

  /** The text of an id: its digits, without a leading zero. */
  ghost predicate IdText(text: string, id: int) {
    Digits(text) && ValueOf(text) == id && (|text| == 1 || text[0] != '0')
  }

  /** The id in the id column, every other listed value in its column, and nothing elsewhere. */
  ghost predicate NewRow(t: Table, cols: seq<string>, vals: seq<string>, id: int, row: Row)
    requires |cols| == |vals|
  {
    && |row| == |t.columns|
    && (forall p: nat :: FirstColumn(t.columns, "id", p) ==> IdText(row[p], id))
    && (forall j: nat, p: nat :: j < |cols| && GoesTo(t, cols[j], p) ==> row[p] == vals[j])
    && (forall p: nat :: p < |row| && !FirstColumn(t.columns, "id", p) && !ListedAt(t, cols, p) ==> row[p] == "")
  }

  /** A value listed under this name is kept, in column p. */
  ghost predicate GoesTo(t: Table, name: string, p: nat) {
    FirstColumn(t.columns, name, p) && !SameLetters(t.columns[p], "id")
  }

  ghost predicate ListedAt(t: Table, cols: seq<string>, p: nat) {
    exists j: nat :: j < |cols| && FirstColumn(t.columns, cols[j], p)
  }

  lemma DrawnIsNew(s: State, t: Table, cols: seq<string>, vals: seq<string>, row: Row)
    requires Draws(s, t, cols, vals, row)
    ensures NewRow(t, cols, vals, NextId(s.counter), row)
  {
    DrawnRowMeaning(s, t, cols, vals, row);
    PrintHasNoLeadingZero(NextId(s.counter));
    FirstColumnIff(t.columns, "id");
    forall j: nat, p: nat | j < |cols| && GoesTo(t, cols[j], p) ensures row[p] == vals[j] {
      FirstColumnIff(t.columns, cols[j]);
      SameNameIff(t.columns[p], "id");
      assert Carries(t.columns, cols, vals, row, j);
    }
    forall p: nat | p < |row| && !FirstColumn(t.columns, "id", p) && !ListedAt(t, cols, p) ensures row[p] == "" {
      forall j | 0 <= j < |cols| ensures Target(t.columns, cols, j) != p {
        FirstColumnIff(t.columns, cols[j]);
      }
      assert NotAssigned(t.columns, cols, 0, p);
    }
  }

  ghost predicate HasNumber(items: seq<Item>, stc: int, x: string) {
    exists i :: 0 <= i < |items| && StudentOf(items[i].row, stc) == x
  }

  /** The student numbers in the file are those that the caches hold. */
  lemma KnownNumbers(s: State, t: Table, cols: seq<string>, vals: seq<string>) returns (known: set<string>)
    requires |cols| == |vals| && GoodTable(t) && s == ActiveState(s.files, t)
    ensures forall x :: x in known <==> HasNumber(ItemsOf(FileOf(s.files, t.path)), StudentColumn(t), x)
    ensures forall e :: EarlyError(t, cols, vals, known, e) <==> EarlyError(t, cols, vals, Known(s, t), e)
  {
    var items, stc := ItemsOf(FileOf(s.files, t.path)), StudentColumn(t);
    known := StudentSet(items, stc);
    forall x ensures x in known <==> HasNumber(items, stc, x) {
      InStudents(items, stc, x);
    }
    FirstColumnIff(t.columns, "student_no");
    forall j: nat | j < |cols| ensures GivesNumber(t, cols, j) ==> stc >= 0 {
      GivesNumberIff(t, cols, j);
    }
  }

  lemma StoredRow(s: State, a: State, t: Table, cols: seq<string>, vals: seq<string>, row: Row)
    requires Sound(s, t) && a == OpenState(s, t) && ValuesFit(vals) && Draws(a, t, cols, vals, row)
    requires MaxIdAt(s.files, t) < LAST_ID
    ensures var (s', r) := InsertActive(a, t, cols, vals);
      && r == Stored(row)
      && RowsIn(s', t) == RowsIn(s, t) + [Item(|Opened(FileOf(s.files, t.path))|, row)]
  {
    var b := Opened(FileOf(s.files, t.path));
    SoundFile(s, t);
    StoredIffNoWrapOntoStoredId(a, t, cols, vals, row, NextId(a.counter));
    DrawnRowFits(a, t, cols, vals, row);
    AppendedFile(t, b, row);
    GoodOpensItself(t, b + EncodeRow(row));
  }

  /** What an INSERT with as many values as columns makes of the rows. */
  ghost predicate Inserts(s: State, t: Table, cols: seq<string>, vals: seq<string>, known: set<string>, s': State,
                          r: InsertOutcome)
    requires |cols| == |vals|
  {
    if exists e :: EarlyError(t, cols, vals, known, e) then
      RowsIn(s', t) == RowsIn(s, t) && r.Refused? && EarlyError(t, cols, vals, known, r.error)
    else
      && r.Stored? && NewRow(t, cols, vals, MaxIdAt(s.files, t) + 1, r.row)
      && RowsIn(s', t) == RowsIn(s, t) + [Item(|Opened(FileOf(s.files, t.path))|, r.row)]
  }

  lemma SameRows(s: State, t: Table)
    requires Sound(s, t)
    ensures RowsIn(OpenState(s, t), t) == RowsIn(s, t)
  {
    SoundFile(s, t);
    GoodOpensItself(t, Opened(FileOf(s.files, t.path)));
  }

  lemma ActiveInsert(s: State, a: State, t: Table, cols: seq<string>, vals: seq<string>) returns (known: set<string>)
    requires Sound(s, t) && a == OpenState(s, t) && ValuesFit(vals) && |cols| == |vals|
    requires MaxIdAt(s.files, t) < LAST_ID
    ensures forall x :: x in known <==> HasNumber(RowsIn(s, t), StudentColumn(t), x)
    ensures var (s', r) := InsertActive(a, t, cols, vals); Inserts(s, t, cols, vals, known, s', r)
  {
    SoundFile(s, t);
    known := KnownNumbers(a, t, cols, vals);
    EarlyErrorIff(a, t, cols, vals);
    if e :| EarlyError(t, cols, vals, known, e) {
      SameRows(s, t);
      assert InsertActive(a, t, cols, vals) == (a, Refused(e));
    } else {
      var row :| Draws(a, t, cols, vals, row);
      NextIdIsLarger(a.counter);
      DrawnIsNew(a, t, cols, vals, row);
      StoredRow(s, a, t, cols, vals, row);
    }
  }

  /**
    Every INSERT on a sound table with an id to spare. With lists of different length it
    is refused; with a bad column, or a bad student number, it is refused and the rows
    stay; otherwise the row it describes is stored behind the others, with the id behind
    the largest one.
   */
  lemma InsertMeaning(s: State, t: Table, cols: seq<string>, vals: seq<string>) returns (known: set<string>)
    requires Sound(s, t) && ValuesFit(vals) && MaxIdAt(s.files, t) < 0xFFFF_FFFF_FFFF_FFFF
    ensures |cols| != |vals| ==> Insert(s, t, cols, vals) == (s, Refused(CountMismatch))
    ensures |cols| == |vals| ==>
      && (forall x :: x in known <==> HasNumber(RowsIn(s, t), StudentColumn(t), x))
      && var (s', r) := Insert(s, t, cols, vals); Inserts(s, t, cols, vals, known, s', r)
  {
    var a := OpenState(s, t);
    ActivateGood(s, t);
    InsertAfterActivation(s, a, t, cols, vals);
    known := {};
    if |cols| == |vals| {
      known := ActiveInsert(s, a, t, cols, vals);
    }
  }
}
