/**
  Small tables and statements on which the engine does less than its documents say: one
  for every condition that the theorems name.
 */
module Witnesses {
  import opened Entries
  import opened Text
  import opened RowLog
  import opened LogProofs
  import opened Migration
  import opened EngineSpec
  import opened Rebuild
  import opened Runs
  import opened Limits
  import opened Migrated
  import opened SelectTheorems
  import opened Sync
  import opened UnreadableRows

  // ---- Tables with an id column only ----

  predicate IdOnly(t: Table) {
    t.columns == ["id"]
  }

  lemma IdOnlyColumns(t: Table)
    requires IdOnly(t)
    ensures IdColumn(t) == 0 && StudentColumn(t) == -1 && GoodTable(t)
  {
    SameNameIffLowered("id", "id");
    if SameName("id", "student_no") {
      SameNameLength("id", "student_no");
    }
  }

  /** A clean log with one row for each of the given id texts. */
  ghost predicate IdFile(b: string, ids: seq<string>) {
    Clean(b) && |ItemsOf(b)| == |ids| && forall i :: 0 <= i < |ids| ==> ItemsOf(b)[i].row == [ids[i]]
  }

  predicate ShortIds(ids: seq<string>) {
    forall i :: 0 <= i < |ids| ==> ValueFits(ids[i])
  }

  function IdRows(ids: seq<string>): seq<Row> {
    seq(|ids|, i requires 0 <= i < |ids| => [ids[i]])
  }

  /** There is such a file. */
  lemma IdFileOf(ids: seq<string>)
    requires ShortIds(ids)
    ensures IdFile(AppendAll("", IdRows(ids)).0, ids)
  {
    var rows, items := IdRows(ids), ItemsOf(AppendAll("", IdRows(ids)).0);
    assert forall i :: 0 <= i < |rows| ==> Storable(rows[i]);
    ReadableLog(rows);
    assert |RowsOf(items)| == |items|;
    forall i | 0 <= i < |ids| ensures items[i].row == [ids[i]] {
      assert RowsOf(items)[i] == rows[i];
    }
  }

  lemma CleanIsPrepared(b: string)
    requires Clean(b)
    ensures Prepared(b) == Some(b) && Opened(b) == b
  {
    CleanLooksBinary(b);
  }

  lemma Digit(s: string, d: nat)
    requires |s| == 1 && IsDigit(s[0]) && d == s[0] as int - '0' as int
    ensures ParseU64(s) == Some(d)
  {
    assert s[..0] == "" && Decimal(s) == d;
  }

  lemma FillIdOnly()
    ensures Fill(["id"], ["id"], ["7"], 0, BlankRow(["id"]), {}) == Filled([""], {0})
  {
    IdOnlyColumns(Table("", ["id"]));
    SameNameIffLowered("id", "id");
    assert BlankRow(["id"]) == [""];
    assert Fill(["id"], ["id"], ["7"], 1, [""], {0}) == Filled([""], {0});
  }

  /** Whatever id a statement gives, the next one is drawn. */
  lemma DrawsNext(s: State, t: Table, row: Row)
    requires IdOnly(t) && row == [Print(NextId(s.counter))]
    ensures Draws(s, t, ["id"], ["7"], row) && Storable(row)
  {
    IdOnlyColumns(t);
    FillIdOnly();
    PrintedIdFits(NextId(s.counter));
    assert [""][0 := Print(NextId(s.counter))] == row;
  }

  /** Two rows with one id are never good. */
  lemma TwiceIsBad(items: seq<Item>, i: nat, j: nat)
    requires i < j < |items| && IdOf(items[i].row, 0) == IdOf(items[j].row, 0)
    ensures !GoodItems(items, 0, -1)
  {
    GoodItemsIffPairwise(items, 0, -1);
    assert !GoodTogether(items[i].row, items[j].row, 0, -1);
  }

  // ---- The counter wraps ----

  lemma ZeroAndLast(items: seq<Item>)
    requires |items| == 2 && items[0].row == ["0"] && items[1].row == ["-1"]
    ensures GoodItems(items, 0, -1) && MaxIdOf(items, 0) == LAST_ID && 0 in IdsOf(items, 0)
  {
    Digit("0", 0);
    MinusOneIsTheLastId();
    GoodItemsIffPairwise(items, 0, -1);
    InIds(items, 0, 0);
    InIds(items, 0, LAST_ID);
    MaxIdBound(items, 0, LAST_ID);
  }

  /**
    A file with the ids 0 and -1 is activated with the counter at its last value; the next
    INSERT passes all checks, writes its row, and is refused.
   */
  lemma WrapIsRefused(files: map<string, string>, t: Table, b: string)
    requires IdOnly(t) && FileOf(files, t.path) == b && IdFile(b, ["0", "-1"])
    ensures var (a, ok) := Activate(Started(files), t); var (s', r) := Insert(a, t, ["id"], ["7"]);
      ok && WrapsOntoStoredId(a, t) && r == Refused(IdTaken) && FileOf(s'.files, t.path) == b + EncodeRow(["0"])
  {
    var a := Activate(Started(files), t).0;
    IdOnlyColumns(t);
    CleanIsPrepared(b);
    ZeroAndLast(ItemsOf(b));
    ActivationIsTruthfulIff(Started(files), t);
    ActivationFile(Started(files), t);
    WrapRefuses(a, t, b);
  }

  lemma ActivationFile(s: State, t: Table)
    requires !TakenAsActive(s, t) && IdColumn(t) >= 0 && Prepared(FileOf(s.files, t.path)).Some?
    ensures FileOf(Activate(s, t).0.files, t.path) == Opened(FileOf(s.files, t.path))
    ensures !Activate(s, t).1 ==> Activate(s, t).0.counter == s.counter
  {
    var k := ActivationStops(s, t);
  }

  lemma WrapRefuses(a: State, t: Table, b: string)
    requires IdOnly(t) && a == ActiveState(a.files, t) && FileOf(a.files, t.path) == b
    requires MaxIdOf(ItemsOf(b), IdColumn(t)) == LAST_ID && 0 in IdsOf(ItemsOf(b), IdColumn(t))
    ensures var (s', r) := Insert(a, t, ["id"], ["7"]);
      WrapsOntoStoredId(a, t) && r == Refused(IdTaken) && FileOf(s'.files, t.path) == b + EncodeRow(["0"])
  {
    InsertAfterActivation(a, a, t, ["id"], ["7"]);
    DrawsNext(a, t, ["0"]);
    DrawnOutcome(a, t, ["id"], ["7"], ["0"]);
    NextIdTakenIff(a, t, 0);
  }

  // ---- After a failed activation ----

  /** A file whose first two rows have one id stops an activation behind the first. */
  lemma StopsBehindFirst(items: seq<Item>, k: nat)
    requires FirstBad(items, k, 0, -1) && |items| >= 2 && HasId(items[0].row, 0)
    requires IdOf(items[0].row, 0) == IdOf(items[1].row, 0)
    ensures k == 1
  {
    if k >= 2 {
      TwiceIsBad(items[..k], 0, 1);
    }
    assert items[..0] == [];
  }

  /** The first two rows have one id, and it is the given one. */
  ghost predicate StartsTwice(b: string, id: u64) {
    && Clean(b) && |ItemsOf(b)| >= 2 && HasId(ItemsOf(b)[0].row, 0)
    && IdOf(ItemsOf(b)[0].row, 0) == IdOf(ItemsOf(b)[1].row, 0) == id
  }

  lemma FailsBehindFirst(s: State, t: Table, b: string, id: u64)
    requires IdOnly(t) && !TakenAsActive(s, t) && FileOf(s.files, t.path) == b && StartsTwice(b, id)
    ensures Prepared(b) == Some(b) && Opened(b) == b
    ensures var (a, ok) := Activate(s, t); !ok && FileOf(a.files, t.path) == b && a.counter == s.counter
  {
    IdOnlyColumns(t);
    CleanIsPrepared(b);
    TwiceIsBad(ItemsOf(b), 0, 1);
    ActivationIsTruthfulIff(s, t);
    ActivationFile(s, t);
  }

  lemma WritesNext(a: State, t: Table, row: Row)
    requires IdOnly(t) && Activate(a, t) == (a, true) && row == [Print(NextId(a.counter))]
    ensures FileOf(Insert(a, t, ["id"], ["7"]).0.files, t.path) == FileOf(a.files, t.path) + EncodeRow(row)
  {
    DrawsNext(a, t, row);
    InsertAfterActivation(a, a, t, ["id"], ["7"]);
    DrawnOutcome(a, t, ["id"], ["7"], row);
  }

  lemma HoldsFirst(items: seq<Item>, id: u64)
    requires |items| >= 1 && HasId(items[0].row, 0)
    ensures Holds(items[..1], 0, id) <==> IdOf(items[0].row, 0) == id
  {
    assert items[..1][0] == items[0];
  }

  /** The INSERT of a fresh process whose activation failed over such a file: it draws id 1. */
  lemma InsertBehindBadFile(files: map<string, string>, t: Table, b: string, id: u64)
    requires IdOnly(t) && FileOf(files, t.path) == b && StartsTwice(b, id)
    ensures var (a, ok) := Activate(Started(files), t); var (s', r) := Insert(a, t, ["id"], ["7"]);
      var after := ItemsOf(FileOf(s'.files, t.path));
      && !ok && r == (if id == 1 then Refused(IdTaken) else Stored(["1"]))
      && FileOf(s'.files, t.path) == b + EncodeRow(["1"]) && |after| > 0
      && (IdAgain(after, 0) <==> Holds(ItemsOf(b), 0, 1))
  {
    var s := Started(files);
    var a := Activate(s, t).0;
    IdOnlyColumns(t);
    FailsBehindFirst(s, t, b, id);
    FailedActivationSticks(s, t);
    DrawsNext(a, t, ["1"]);
    WritesNext(a, t, ["1"]);
    var k := InsertAfterFailedActivation(s, t, ["id"], ["7"], ["1"]);
    StopsBehindFirst(ItemsOf(b), k);
    HoldsFirst(ItemsOf(b), 1);
  }

  /**
    A file with the id 1 twice: the first statement fails, the next INSERT is taken for
    good, draws id 1, writes its row and only then refuses.
   */
  lemma SecondInsertWritesAndRefuses(files: map<string, string>, t: Table, b: string)
    requires IdOnly(t) && FileOf(files, t.path) == b && IdFile(b, ["1", "1"])
    ensures var (a, ok) := Activate(Started(files), t); var (s', r) := Insert(a, t, ["id"], ["7"]);
      !ok && r == Refused(IdTaken) && FileOf(s'.files, t.path) == b + EncodeRow(["1"])
  {
    Digit("1", 1);
    InsertBehindBadFile(files, t, b, 1);
  }

  /**
    A file with the ids 5, 5 and 1: after the failed activation INSERT draws id 1 and
    reports it as stored, although the file holds it already.
   */
  lemma DuplicateIdIsStored(files: map<string, string>, t: Table, b: string)
    requires IdOnly(t) && FileOf(files, t.path) == b && IdFile(b, ["5", "5", "1"])
    ensures var (a, ok) := Activate(Started(files), t); var (s', r) := Insert(a, t, ["id"], ["7"]);
      var after := ItemsOf(FileOf(s'.files, t.path));
      !ok && r == Stored(["1"]) && after != [] && IdAgain(after, 0)
  {
    Digit("5", 5);
    Digit("1", 1);
    InsertBehindBadFile(files, t, b, 5);
    assert HasId(ItemsOf(b)[2].row, 0);
  }

  // ---- Text that is replaced ----

  /** A text with the id 1 twice is replaced by its log although the activation fails. */
  lemma BadTextIsReplaced(files: map<string, string>, t: Table)
    requires IdOnly(t) && FileOf(files, t.path) == "1\n1\n"
    ensures var (a, ok) := Activate(Started(files), t);
      !ok && IdFile(FileOf(a.files, t.path), ["1", "1"])
  {
    var rows := IdRows(["1", "1"]);
    IdOnlyColumns(t);
    TextOfOnes();
    PreparedText(rows);
    IdFileOf(["1", "1"]);
    ReplacedAlthoughBad(Started(files), t, MigratedFile(rows));
  }

  lemma TextOfOnes()
    ensures RenderText(IdRows(["1", "1"])) == "1\n1\n" && Kept(IdRows(["1", "1"])) == IdRows(["1", "1"])
  {
    var rows := IdRows(["1", "1"]);
    assert RenderLine(["1"]) == "1\n";
    var last := rows[1..];
    assert rows == [["1"], ["1"]] && last == [["1"]] && last[1..] == [];
    assert RenderText(last[1..]) == "" && Kept(last[1..]) == [];
    assert RenderText(last) == "1\n" && Kept(last) == [["1"]];
  }

  lemma ReplacedAlthoughBad(s: State, t: Table, out: string)
    requires IdOnly(t) && !TakenAsActive(s, t)
    requires Prepared(FileOf(s.files, t.path)) == Some(out) && IdFile(out, ["1", "1"])
    ensures !Activate(s, t).1 && FileOf(Activate(s, t).0.files, t.path) == out
  {
    IdOnlyColumns(t);
    ActivationFile(s, t);
    TwiceIsBad(ItemsOf(out), 0, 1);
    ActivationIsTruthfulIff(s, t);
  }

  // ---- Tables with an id and a student number ----

  predicate Numbered(t: Table) {
    t.columns == ["id", "student_no"]
  }

  lemma NumberedColumns(t: Table)
    requires Numbered(t)
    ensures IdColumn(t) == 0 && StudentColumn(t) == 1 && GoodTable(t)
  {
    SameNameIffLowered("id", "id");
    SameNameIffLowered("student_no", "student_no");
    if SameName("id", "student_no") {
      SameNameLength("id", "student_no");
    }
    assert t.columns[0] == "id" && t.columns[1] == "student_no";
    assert SameName(t.columns[1], "student_no") && !SameName(t.columns[0], "student_no");
  }

  lemma FillNumber(v: string)
    ensures Fill(["id", "student_no"], ["student_no"], [v], 0, BlankRow(["id", "student_no"]), {})
         == Filled(["", v], {1})
  {
    var columns: seq<string> := ["id", "student_no"];
    NumberedColumns(Table("", columns));
    if SameName("student_no", "id") {
      SameNameLength("student_no", "id");
    }
    assert BlankRow(columns) == ["", ""] && ["", ""][1 := v] == ["", v];
    assert Fill(columns, ["student_no"], [v], 1, ["", v], {1}) == Filled(["", v], {1});
  }

  /** A number that the cache does not hold is accepted. */
  lemma DrawsNumber(s: State, t: Table, v: string, row: Row)
    requires Numbered(t) && v != "" && row == [Print(NextId(s.counter)), v]
    requires s.students.Some? && v !in s.students.value
    ensures Draws(s, t, ["student_no"], [v], row)
  {
    NumberedColumns(t);
    FillNumber(v);
    assert ["", v][0 := Print(NextId(s.counter))] == row;
  }

  lemma FreshNumberIsDrawn(s: State, t: Table, v: string, row: Row)
    requires Numbered(t) && InSync(s, t) && row == [Print(NextId(s.counter)), v]
    requires v != "" && v !in StudentSet(ItemsOf(s.files[t.path]), 1)
    ensures Draws(s, t, ["student_no"], [v], row)
    ensures Insert(s, t, ["student_no"], [v]) == InsertActive(s, t, ["student_no"], [v])
  {
    NumberedColumns(t);
    DrawsNumber(s, t, v, row);
    InsertAfterActivation(s, s, t, ["student_no"], [v]);
  }

  lemma NumberRow(row: Row, v: string, id: u64)
    requires row == [Print(id), v] && NoNul(v) && |v| < U32_LIMIT
    ensures Each(NoNul, [v]) && Writable(row) && (WithinLimits(row) <==> |v| <= MAX_FIELD_BYTES)
  {
    PrintedIdFits(id);
    assert row[0] == Print(id) && row[1] == v;
  }

  /** INSERT of a fresh student number into a table that is in step. */
  lemma NumberIsStored(s: State, t: Table, v: string, row: Row) returns (s': State)
    requires Numbered(t) && InSync(s, t) && s.counter < LAST_ID && row == [Print(NextId(s.counter)), v]
    requires v != "" && NoNul(v) && |v| < U32_LIMIT && v !in StudentSet(ItemsOf(s.files[t.path]), 1)
    ensures Insert(s, t, ["student_no"], [v]) == (s', Stored(row))
    ensures FileOf(s'.files, t.path) == s.files[t.path] + EncodeRow(row) && s'.counter == NextId(s.counter)
    ensures |v| <= MAX_FIELD_BYTES ==> InSync(s', t)
  {
    var cols, vals := ["student_no"], [v];
    FreshNumberIsDrawn(s, t, v, row);
    NumberRow(row, v, NextId(s.counter));
    s' := DrawnIsStoredInSync(s, t, cols, vals, row);
  }

  lemma DrawnIsStoredInSync(s: State, t: Table, cols: seq<string>, vals: seq<string>, row: Row) returns (s': State)
    requires InSync(s, t) && s.counter < LAST_ID && Draws(s, t, cols, vals, row) && Writable(row)
    requires Each(NoNul, vals) && |t.columns| < U32_LIMIT
    ensures InsertActive(s, t, cols, vals) == (s', Stored(row)) && s'.counter == NextId(s.counter)
    ensures FileOf(s'.files, t.path) == s.files[t.path] + EncodeRow(row)
    ensures WithinLimits(row) ==> InSync(s', t)
  {
    DrawnOutcome(s, t, cols, vals, row);
    StoredKeepsFileIff(s, t, cols, vals, row);
    s' := InsertActive(s, t, cols, vals).0;
  }

  lemma OpensEmpty(files: map<string, string>, t: Table) returns (a: State)
    requires IdColumn(t) >= 0 && FileOf(files, t.path) == ""
    ensures Activate(Started(files), t) == (a, true) && InSync(a, t) && a.counter == 0 && a.files[t.path] == ""
  {
    a := Activate(Started(files), t).0;
    CleanIsPrepared("");
    assert ItemsOf("") == [];
    RebuildSync(Started(files), t);
    ActivationFile(Started(files), t);
  }

  lemma PrintedIds()
    ensures Print(1) == "1" && Print(2) == "2"
  {
  }

  lemma NumberAdded(b: string, row: Row)
    requires Clean(b) && |row| == 2 && ValueFits(row[0]) && ValueFits(row[1])
    ensures ItemsOf(b + EncodeRow(row)) == ItemsOf(b) + [Item(|b|, row)]
  {
    AppendKeepsClean(b, row);
  }

  lemma SameInsert(s: State, a: State, t: Table, cols: seq<string>, vals: seq<string>)
    requires |cols| == |vals| && Activate(s, t) == (a, true) && Activate(a, t) == (a, true)
    ensures Insert(s, t, cols, vals) == Insert(a, t, cols, vals)
  {
    InsertAfterActivation(s, a, t, cols, vals);
    InsertAfterActivation(a, a, t, cols, vals);
  }

  lemma EmptyFile(row: Row)
    requires |row| == 2 && ValueFits(row[0]) && ValueFits(row[1])
    ensures StudentSet(ItemsOf(""), 1) == {} && ItemsOf("" + EncodeRow(row)) == [Item(0, row)]
  {
    assert ItemsOf("") == [];
    NumberAdded("", row);
  }

  /** The first student number of an empty table. */
  lemma FirstNumber(files: map<string, string>, t: Table, v: string, row: Row) returns (s: State)
    requires Numbered(t) && FileOf(files, t.path) == "" && row == ["1", v]
    requires v != "" && NoNul(v) && |v| <= MAX_FIELD_BYTES
    ensures Insert(Started(files), t, ["student_no"], [v]) == (s, Stored(row))
    ensures InSync(s, t) && s.counter == 1 && ItemsOf(s.files[t.path]) == [Item(0, row)]
  {
    NumberedColumns(t);
    var a := OpensEmpty(files, t);
    SameInsert(Started(files), a, t, ["student_no"], [v]);
    PrintedIds();
    EmptyFile(row);
    s := NumberIsStored(a, t, v, row);
  }

  lemma OneNumber(items: seq<Item>, v: string)
    requires |items| == 1 && |items[0].row| == 2 && items[0].row[1] == v
    ensures StudentSet(items, 1) == {v}
  {
    assert items[..0] == [];
  }

  /** The second one. */
  lemma SecondNumber(s: State, t: Table, first: Row, v: string, row: Row) returns (s': State)
    requires Numbered(t) && InSync(s, t) && s.counter == 1 && ItemsOf(s.files[t.path]) == [Item(0, first)]
    requires |first| == 2 && first[1] != v && row == ["2", v] && v != "" && NoNul(v) && |v| < U32_LIMIT
    ensures Insert(s, t, ["student_no"], [v]) == (s', Stored(row))
    ensures FileOf(s'.files, t.path) == s.files[t.path] + EncodeRow(row)
    ensures |v| <= MAX_FIELD_BYTES ==> InSync(s', t)
  {
    PrintedIds();
    OneNumber(ItemsOf(s.files[t.path]), first[1]);
    s' := NumberIsStored(s, t, v, row);
  }

  // ---- A search that loses a row ----

  /** Two rows. */
  ghost predicate Pair(items: seq<Item>, first: Row, second: Row) {
    |items| == 2 && items[0].row == first && items[1].row == second
  }

  lemma SecondRow(b: string, first: Row, second: Row)
    requires Clean(b) && ItemsOf(b) == [Item(0, first)] && |second| == 2 && ValueFits(second[0]) && ValueFits(second[1])
    ensures Pair(ItemsOf(b + EncodeRow(second)), first, second)
  {
    NumberAdded(b, second);
  }

  lemma PairIsGood(t: Table, b: string, first: Row, second: Row)
    requires Numbered(t) && Clean(b) && |first| == |second| == 2 && Pair(ItemsOf(b), first, second)
    requires GoodItems(ItemsOf(b), IdColumn(t), StudentColumn(t))
    ensures GoodFile(t, b)
  {
    var items := ItemsOf(b);
    forall i | 0 <= i < |items| ensures |items[i].row| == |t.columns| {
      assert i == 0 || i == 1;
    }
  }

  lemma PairIsSound(s: State, t: Table, first: Row, second: Row)
    requires Numbered(t) && InSync(s, t) && |first| == |second| == 2
    requires Pair(ItemsOf(s.files[t.path]), first, second)
    ensures Sound(s, t) && RowsIn(s, t) == ItemsOf(s.files[t.path]) && StudentColumn(t) == 1
  {
    NumberedColumns(t);
    PairIsGood(t, s.files[t.path], first, second);
    CleanIsPrepared(s.files[t.path]);
  }

  lemma SameNumberLosesRow(s: State, t: Table, first: Row, second: Row)
    requires Numbered(t) && InSync(s, t) && |first| == |second| == 2 && SameNumber(first[1], second[1])
    requires Pair(ItemsOf(s.files[t.path]), first, second)
    ensures var q := AllWhereStudentIs(first[1]); Select(s, t, q).1 != Reference(t, RowsIn(s, t), q)
  {
    PairIsSound(s, t, first, second);
    PairClashes(RowsIn(s, t), first, second);
    ClashLosesRow(s, t, 0, 1);
  }

  lemma PairClashes(items: seq<Item>, first: Row, second: Row)
    requires Pair(items, first, second) && |first| == |second| == 2 && SameNumber(first[1], second[1])
    ensures Clash(items, 1, 0, 1) && StudentOf(items[0].row, 1) == first[1]
  {
  }

  lemma SecondInFile(s: State, t: Table, first: Row, w: string, second: Row) returns (s': State)
    requires Numbered(t) && InSync(s, t) && s.counter == 1 && ItemsOf(s.files[t.path]) == [Item(0, first)]
    requires |first| == 2 && first[1] != w && second == ["2", w] && w != "" && ValueFits(w)
    ensures Insert(s, t, ["student_no"], [w]) == (s', Stored(second))
    ensures InSync(s', t) && Pair(ItemsOf(s'.files[t.path]), first, second)
  {
    s' := SecondNumber(s, t, first, w, second);
    SecondRow(s.files[t.path], first, second);
  }

  lemma TwoNumbers(files: map<string, string>, t: Table, v: string, first: Row, w: string, second: Row)
    returns (s1: State, s: State)
    requires Numbered(t) && FileOf(files, t.path) == "" && first == ["1", v] && second == ["2", w]
    requires v != w && v != "" && w != "" && ValueFits(v) && ValueFits(w)
    ensures Insert(Started(files), t, ["student_no"], [v]) == (s1, Stored(first))
    ensures Insert(s1, t, ["student_no"], [w]) == (s, Stored(second))
    ensures InSync(s, t) && Pair(ItemsOf(s.files[t.path]), first, second)
  {
    s1 := FirstNumber(files, t, v, first);
    s := SecondInFile(s1, t, first, w, second);
  }

  /**
    Two different texts that are the same number, such as "01" and "1", are both stored as
    student numbers in an empty table; the search for the first one then loses a row.
   */
  lemma SearchLosesRow(files: map<string, string>, t: Table, v: string, w: string) returns (s: State)
    requires Numbered(t) && FileOf(files, t.path) == ""
    requires v != w && SameNumber(v, w) && ValueFits(v) && ValueFits(w)
    ensures var (s1, r1) := Insert(Started(files), t, ["student_no"], [v]);
      r1.Stored? && Insert(s1, t, ["student_no"], [w]) == (s, Stored(["2", w]))
    ensures var q := AllWhereStudentIs(v); Select(s, t, q).1 != Reference(t, RowsIn(s, t), q)
  {
    var first: Row, second: Row := ["1", v], ["2", w];
    assert v != "" && w != "";
    var s1;
    s1, s := TwoNumbers(files, t, v, first, w, second);
    SameNumberLosesRow(s, t, first, second);
  }

  // ---- A value that is stored and cannot be read ----

  lemma LongRow(row: Row, v: string)
    requires row == ["2", v] && NoNul(v) && MAX_FIELD_BYTES < |v| < U32_LIMIT
    ensures CStrings(row) && Writable(row) && |row| < U32_LIMIT && !WithinLimits(row)
  {
    assert row[0] == "2" && row[1] == v;
  }

  lemma OneRowIsLong(b: string, row: Row)
    requires ItemsOf(b) == [Item(0, row)]
    ensures |b| >= 4
  {
  }

  /**
    A student number longer than the reader accepts is reported as stored behind an
    ordinary one; the file then no longer scans to its end, and a restart cannot open it.
   */
  lemma LongNumberBreaksTable(files: map<string, string>, t: Table, v: string) returns (s: State)
    requires Numbered(t) && FileOf(files, t.path) == "" && NoNul(v) && MAX_FIELD_BYTES < |v| < U32_LIMIT
    ensures var (s1, r1) := Insert(Started(files), t, ["student_no"], ["1"]);
      r1.Stored? && Insert(s1, t, ["student_no"], [v]) == (s, Stored(["2", v]))
    ensures !Clean(FileOf(s.files, t.path)) && !Activate(Started(s.files), t).1
  {
    var first: Row, second: Row := ["1", "1"], ["2", v];
    var s1 := FirstNumber(files, t, "1", first);
    s := SecondNumber(s1, t, first, v, second);
    LongRow(second, v);
    OneRowIsLong(s1.files[t.path], first);
    UnreadableTail(s1.files[t.path], second);
    OverLimitFailsRebuild(Started(s.files), t, s1.files[t.path], second);
  }
}
