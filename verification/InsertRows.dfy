/**
  The row an INSERT stores, in terms of the columns and values of the statement.
 */
module InsertRows {
  import opened Text
  import opened RowLog
  import opened EngineSpec
  import opened Runs

  function Target(columns: seq<string>, cols: seq<string>, j: nat): int
    requires j < |cols|
  {
    ColumnIndex(columns, cols[j])
  }

  /** From position i on, every listed column exists, is not yet given, and is listed once. */
  ghost predicate Assignable(columns: seq<string>, cols: seq<string>, i: nat, given: set<int>) {
    && (forall j :: i <= j < |cols| ==> Target(columns, cols, j) >= 0 && Target(columns, cols, j) !in given)
    && (forall j, k :: i <= j < k < |cols| ==> Target(columns, cols, j) != Target(columns, cols, k))
  }

  /** Column value j has gone to its column, unless that is an id column. */
  ghost predicate Carries(columns: seq<string>, cols: seq<string>, vals: seq<string>, row: Row, j: nat)
    requires j < |cols| == |vals| && |row| == |columns|
  {
    var c := Target(columns, cols, j);
    c >= 0 && (SameName(columns[c], "id") || row[c] == vals[j])
  }

  /** No value from position i on goes to column c. */
  ghost predicate NotAssigned(columns: seq<string>, cols: seq<string>, i: nat, c: nat)
    requires c < |columns|
  {
    SameName(columns[c], "id") || forall j :: i <= j < |cols| ==> Target(columns, cols, j) != c
  }

  /** The row after the values from position i on have gone to their columns; id columns are left alone. */
  ghost predicate Assigned(columns: seq<string>, cols: seq<string>, vals: seq<string>, i: nat, row: Row, row': Row)
    requires |cols| == |vals| && |row| == |columns| == |row'|
  {
    && (forall j :: i <= j < |cols| ==> Carries(columns, cols, vals, row', j))
    && (forall c :: 0 <= c < |columns| && NotAssigned(columns, cols, i, c) ==> row'[c] == row[c])
  }

  lemma AssignableStep(columns: seq<string>, cols: seq<string>, i: nat, given: set<int>)
    requires i < |cols|
    ensures Assignable(columns, cols, i, given) <==>
      && Target(columns, cols, i) >= 0 && Target(columns, cols, i) !in given
      && Assignable(columns, cols, i + 1, given + {Target(columns, cols, i)})
  {
  }

  lemma {:induction false} FillMeaning(columns: seq<string>, cols: seq<string>, vals: seq<string>, i: nat, row: Row,
                                       given: set<int>)
    requires i <= |cols| == |vals| && |row| == |columns|
    ensures var f := Fill(columns, cols, vals, i, row, given);
      && (f.Filled? <==> Assignable(columns, cols, i, given))
      && (f.Filled? ==> Assigned(columns, cols, vals, i, row, f.row))
    decreases |cols| - i
  {
    if i < |cols| {
      var c := Target(columns, cols, i);
      AssignableStep(columns, cols, i, given);
      if c >= 0 && c !in given {
        var row' := if SameName(columns[c], "id") then row else row[c := vals[i]];
        FillMeaning(columns, cols, vals, i + 1, row', given + {c});
        var f := Fill(columns, cols, vals, i + 1, row', given + {c});
        if f.Filled? {
          AssignedStep(columns, cols, vals, i, row, row', f.row);
        }
      }
    }
  }

  lemma {:induction false} FillGiven(columns: seq<string>, cols: seq<string>, vals: seq<string>, i: nat, row: Row,
                                     given: set<int>)
    requires i <= |cols| == |vals| && |row| == |columns|
    ensures var f := Fill(columns, cols, vals, i, row, given);
      f.Filled? ==> forall c :: c in f.given <==> c in given || Listed(columns, cols, i, c)
    decreases |cols| - i
  {
    if i < |cols| {
      var c := Target(columns, cols, i);
      if c >= 0 && c !in given {
        var row' := if SameName(columns[c], "id") then row else row[c := vals[i]];
        FillGiven(columns, cols, vals, i + 1, row', given + {c});
      }
    }
  }

  ghost predicate Listed(columns: seq<string>, cols: seq<string>, i: nat, c: int) {
    exists j :: i <= j < |cols| && Target(columns, cols, j) == c
  }

  lemma AssignedStep(columns: seq<string>, cols: seq<string>, vals: seq<string>, i: nat, row: Row, mid: Row, row': Row)
    requires i < |cols| == |vals| && |row| == |columns| == |mid| == |row'| && Target(columns, cols, i) >= 0
    requires mid == var c := Target(columns, cols, i); if SameName(columns[c], "id") then row else row[c := vals[i]]
    requires Assigned(columns, cols, vals, i + 1, mid, row')
    requires forall j :: i < j < |cols| ==> Target(columns, cols, j) != Target(columns, cols, i)
    ensures Assigned(columns, cols, vals, i, row, row')
  {
  }

  /**
    A drawn row has the next id, printed, in the id column, the given value in every
    other listed column, and blanks elsewhere; a value given for id is dropped.
   */
  lemma DrawnRowMeaning(s: State, t: Table, cols: seq<string>, vals: seq<string>, row: Row)
    requires Draws(s, t, cols, vals, row)
    ensures |row| == |t.columns| && row[IdColumn(t)] == Print(NextId(s.counter))
    ensures forall j :: 0 <= j < |cols| ==> Carries(t.columns, cols, vals, row, j)
    ensures forall c :: 0 <= c < |row| && c != IdColumn(t) && NotAssigned(t.columns, cols, 0, c) ==> row[c] == ""
  {
    FillMeaning(t.columns, cols, vals, 0, BlankRow(t.columns), {});
    var f := Fill(t.columns, cols, vals, 0, BlankRow(t.columns), {});
    forall j | 0 <= j < |cols| ensures Carries(t.columns, cols, vals, row, j) {
      assert Carries(t.columns, cols, vals, f.row, j);
    }
  }

  /** Whether the student number of a statement is present, not empty, and not cached. */
  ghost predicate StudentNumberFine(s: State, t: Table, cols: seq<string>, vals: seq<string>)
    requires |cols| == |vals|
  {
    StudentColumn(t) >= 0 ==> exists j :: 0 <= j < |cols| && FineAt(s, t, cols, vals, j)
  }

  ghost predicate FineAt(s: State, t: Table, cols: seq<string>, vals: seq<string>, j: nat)
    requires j < |cols| == |vals|
  {
    && Target(t.columns, cols, j) == StudentColumn(t) && vals[j] != ""
    && !(s.studentColumn == StudentColumn(t) && s.students.Some? && vals[j] in s.students.value)
  }

  /** A statement passes all checks exactly when its columns are known and different and its student number is fine. */
  lemma DrawsIff(s: State, t: Table, cols: seq<string>, vals: seq<string>)
    requires |cols| == |vals| && IdColumn(t) >= 0
    ensures (exists row :: Draws(s, t, cols, vals, row)) <==>
      Assignable(t.columns, cols, 0, {}) && StudentNumberFine(s, t, cols, vals)
  {
    FillMeaning(t.columns, cols, vals, 0, BlankRow(t.columns), {});
    FillGiven(t.columns, cols, vals, 0, BlankRow(t.columns), {});
    var f := Fill(t.columns, cols, vals, 0, BlankRow(t.columns), {});
    if f.Filled? {
      StudentCheckIff(s, t, cols, vals, f);
      if StudentCheck(s, t, f) == None {
        assert Draws(s, t, cols, vals, f.row[IdColumn(t) := Print(NextId(s.counter))]);
      }
    }
  }

  lemma StudentCheckIff(s: State, t: Table, cols: seq<string>, vals: seq<string>, f: Filled)
    requires |cols| == |vals| && f.Filled? && |f.row| == |t.columns| && Assignable(t.columns, cols, 0, {})
    requires Assigned(t.columns, cols, vals, 0, BlankRow(t.columns), f.row)
    requires forall c :: c in f.given <==> Listed(t.columns, cols, 0, c)
    ensures StudentCheck(s, t, f) == None <==> StudentNumberFine(s, t, cols, vals)
  {
    var stc := StudentColumn(t);
    if stc >= 0 {
      NotIdColumn(t);
      forall j | 0 <= j < |cols| && Target(t.columns, cols, j) == stc ensures stc in f.given && f.row[stc] == vals[j] {
        assert Listed(t.columns, cols, 0, stc) && Carries(t.columns, cols, vals, f.row, j);
      }
      if stc in f.given {
        var j :| 0 <= j < |cols| && Target(t.columns, cols, j) == stc;
        assert FineAt(s, t, cols, vals, j) <==> StudentCheck(s, t, f) == None;
      }
    }
  }

  lemma NotIdColumn(t: Table)
    requires StudentColumn(t) >= 0
    ensures !SameName(t.columns[StudentColumn(t)], "id")
  {
    if SameName(t.columns[StudentColumn(t)], "id") {
      SameNameLength(t.columns[StudentColumn(t)], "id");
      SameNameLength(t.columns[StudentColumn(t)], "student_no");
    }
  }
}
