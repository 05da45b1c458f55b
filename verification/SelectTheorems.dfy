/**
  The theorem on SELECT: whichever path is taken, the answer is that of a plain filter
  over the decoded rows of the file. The one exception, stopping at the first
  student_no match, is harmless exactly when no two student numbers are the same number.
 */
module SelectTheorems {
  import opened Entries
  import opened Text
  import opened RowLog
  import opened LogProofs
  import opened Syntax
  import opened EngineSpec
  import opened Rebuild
  import opened Runs
  import opened RunTheorems
  import opened Transducer
  import opened Selects

  /** The column a WHERE clause names. */
  function WhereColumn(t: Table, w: Where): int {
    if w.Where? then ColumnIndex(t.columns, w.column) else -1
  }

  /** The answer by plain filtering of all rows. */
  function Reference(t: Table, items: seq<Item>, q: SelectStatement): SelectOutcome {
    if q.where_.Where? && WhereColumn(t, q.where_) < 0 then SelectRefused(LinearPathFailed)
    else Present(t, q, Filter(items, q.where_, WhereColumn(t, q.where_)))
  }

  /** The condition under which the scan stops at the first match. */
  predicate StopsEarly(w: Where) {
    w.Where? && w.op == Equal && SameName(w.column, "student_no")
  }

  /** The same answer, or the same rows in another order under the same columns. */
  ghost predicate SameUpToOrder(a: SelectOutcome, r: SelectOutcome) {
    match a
    case SelectRefused(e) => r == SelectRefused(e)
    case Answer(columns, rows) => r.Answer? && r.columns == columns && multiset(r.rows) == multiset(rows)
  }

  lemma PresentAnyOrder(t: Table, q: SelectStatement, x: seq<Row>, y: seq<Row>)
    requires multiset(x) == multiset(y) && AllOfWidth(x, |t.columns|) && AllOfWidth(y, |t.columns|)
    ensures SameUpToOrder(Present(t, q, x), Present(t, q, y))
  {
    var ps := if q.all then Some(AllPositions(t.columns)) else Positions(t.columns, q.columns);
    if ps.Some? {
      var px, py := ProjectAnyOrder(x, y, ps.value, |t.columns|);
    }
  }

  lemma {:induction false} FilterWidth(items: seq<Item>, w: Where, wi: int, width: nat)
    requires forall i :: 0 <= i < |items| ==> |items[i].row| == width
    ensures AllOfWidth(Filter(items, w, wi), width)
  {
    if items != [] {
      FilterWidth(items[1..], w, wi, width);
    }
  }

  lemma SameWidthAnyOrder(x: seq<Row>, y: seq<Row>, width: nat)
    requires multiset(x) == multiset(y) && AllOfWidth(y, width)
    ensures AllOfWidth(x, width)
  {
    forall i | 0 <= i < |x| ensures |x[i]| == width {
      assert x[i] in multiset(y);
      var j :| 0 <= j < |y| && y[j] == x[i];
    }
  }

  lemma IdPath(s: State, t: Table, q: SelectStatement, items: seq<Item>)
    requires GoodTable(t) && GoodFile(t, FileOf(s.files, t.path)) && s == ActiveState(s.files, t)
    requires items == ItemsOf(FileOf(s.files, t.path)) && OnId(q.where_)
    ensures SameUpToOrder(AnswerFrom(s, t, q), Reference(t, items, q))
    ensures InIdOrder(items, IdColumn(t)) ==> AnswerFrom(s, t, q) == Reference(t, items, q)
  {
    var w, b := q.where_, FileOf(s.files, t.path);
    SameNameColumns(t.columns, w.column, "id");
    GoodIsReadable(t, b);
    var rows := IndexPathIsFilter(b, items, |t.columns|, w, IdColumn(t), ParseU64(w.value).value);
    FilterWidth(items, w, IdColumn(t), |t.columns|);
    SameWidthAnyOrder(rows, Filter(items, w, IdColumn(t)), |t.columns|);
    PresentAnyOrder(t, q, rows, Filter(items, w, IdColumn(t)));
  }

  lemma ScanPath(s: State, t: Table, q: SelectStatement, items: seq<Item>)
    requires GoodTable(t) && GoodFile(t, FileOf(s.files, t.path))
    requires items == ItemsOf(FileOf(s.files, t.path)) && !OnId(q.where_)
    ensures WhereColumn(t, q.where_) >= 0 && StopsEarly(q.where_) ==>
      AnswerFrom(s, t, q) == Present(t, q, UpTo(Filter(items, q.where_, WhereColumn(t, q.where_)), true))
    ensures WhereColumn(t, q.where_) < 0 || !StopsEarly(q.where_) ==> AnswerFrom(s, t, q) == Reference(t, items, q)
  {
    var w := q.where_;
    var wi := WhereColumn(t, w);
    if w.NoWhere? || wi >= 0 {
      LinearIsFilter(FileOf(s.files, t.path), 0, items, w, wi, StopsEarly(w));
    }
  }

  /** The rows of a table as its next statement will find them. */
  ghost function RowsIn(s: State, t: Table): seq<Item> {
    ItemsOf(Opened(FileOf(s.files, t.path)))
  }

  /** A SELECT on a sound table is answered from the active state over its prepared file. */
  lemma SelectAfterActivation(s: State, t: Table, q: SelectStatement)
    requires Sound(s, t)
    ensures Select(s, t, q).1 == AnswerFrom(OpenState(s, t), t, q)
    ensures GoodTable(t) && GoodFile(t, FileOf(OpenState(s, t).files, t.path))
    ensures ItemsOf(FileOf(OpenState(s, t).files, t.path)) == RowsIn(s, t)
  {
    SoundFile(s, t);
    ActivateGood(s, t);
  }

  /**
    Every SELECT on a sound table, after any activation it needs and whatever other tables
    hold: a point or range comparison on id answers with the rows of the filter, in the
    filter's order when the file is in id order; every other WHERE clause answers exactly
    as the filter does, cut after the first row when the scan stops early.
   */
  lemma SelectIsFilter(s: State, t: Table, q: SelectStatement)
    requires Sound(s, t)
    ensures var items := RowsIn(s, t);
      var answer, r, cut := Select(s, t, q).1, Reference(t, items, q), CutReference(t, items, q);
      && SameUpToOrder(answer, if StopsEarly(q.where_) && WhereColumn(t, q.where_) >= 0 then cut else r)
      && (!OnId(q.where_) && !StopsEarly(q.where_) ==> answer == r)
      && (OnId(q.where_) && InIdOrder(items, IdColumn(t)) ==> answer == r)
  {
    SelectAfterActivation(s, t, q);
    if OnId(q.where_) {
      NotBoth(q.where_.column);
      IdPath(OpenState(s, t), t, q, RowsIn(s, t));
    } else {
      ScanPath(OpenState(s, t), t, q, RowsIn(s, t));
    }
  }

  /** The answer when only the first match is kept. */
  function CutReference(t: Table, items: seq<Item>, q: SelectStatement): SelectOutcome {
    Present(t, q, UpTo(Filter(items, q.where_, WhereColumn(t, q.where_)), true))
  }

  lemma NotBoth(name: string)
    ensures !(SameName(name, "id") && SameName(name, "student_no"))
  {
    if SameName(name, "id") && SameName(name, "student_no") {
      SameNameLength(name, "id");
      SameNameLength(name, "student_no");
    }
  }

  // ---- Stopping at the first student_no ----

  function StudentIs(v: string): Where {
    Where("student_no", v, Equal)
  }

  /** Stopping early gives the whole answer when there is at most one match. */
  lemma UpToIsAll(rows: seq<Row>)
    ensures UpTo(rows, true) == rows <==> |rows| <= 1
  {
  }

  ghost predicate SameNumber(x: string, y: string) {
    ParseU64(x).Some? && ParseU64(x) == ParseU64(y)
  }

  /** Two rows whose student numbers differ as text and agree as numbers. */
  ghost predicate Clash(items: seq<Item>, stc: int, i: nat, j: nat)
  {
    i < j < |items| && SameNumber(StudentOf(items[i].row, stc), StudentOf(items[j].row, stc))
  }

  ghost predicate NoClash(items: seq<Item>, stc: int) {
    forall i: nat, j: nat :: !Clash(items, stc, i, j)
  }

  lemma {:induction false} FilterNone(items: seq<Item>, w: Where, wi: int)
    requires forall i :: 0 <= i < |items| ==> !Matches(items[i].row, w, wi)
    ensures Filter(items, w, wi) == []
  {
    if items != [] {
      FilterNone(items[1..], w, wi);
    }
  }

  lemma {:induction false} FilterAtMostOne(items: seq<Item>, w: Where, wi: int)
    requires forall i, j :: 0 <= i < j < |items| ==> !(Matches(items[i].row, w, wi) && Matches(items[j].row, w, wi))
    ensures |Filter(items, w, wi)| <= 1
  {
    if items != [] {
      var rest := items[1..];
      assert forall i :: 0 <= i < |rest| ==> rest[i] == items[i + 1];
      if Matches(items[0].row, w, wi) {
        FilterNone(rest, w, wi);
      } else {
        FilterAtMostOne(rest, w, wi);
      }
    }
  }

  lemma FilterAround(items: seq<Item>, w: Where, wi: int, i: nat)
    requires i < |items|
    ensures Filter(items, w, wi)
         == Filter(items[..i], w, wi) + (Hit(items[i].row, w, wi) + Filter(items[i + 1..], w, wi))
  {
    FilterConcat(items[..i], items[i..], w, wi);
    assert items == items[..i] + items[i..] && items[i..][1..] == items[i + 1..];
  }

  lemma FilterHasTwo(items: seq<Item>, w: Where, wi: int, i: nat, j: nat)
    requires i < j < |items| && Matches(items[i].row, w, wi) && Matches(items[j].row, w, wi)
    ensures |Filter(items, w, wi)| >= 2
  {
    FilterAround(items, w, wi, j);
    FilterAround(items[..j], w, wi, i);
    assert items[..j][i] == items[i];
  }

  lemma NumberMatches(items: seq<Item>, idc: int, stc: int, v: string, i: nat)
    requires GoodItems(items, idc, stc) && stc >= 0 && i < |items|
    ensures Matches(items[i].row, StudentIs(v), stc) <==>
      StudentOf(items[i].row, stc) == v || SameNumber(StudentOf(items[i].row, stc), v)
  {
    GoodItemsIffPairwise(items, idc, stc);
    EqualMatch(StudentOf(items[i].row, stc), v);
  }

  lemma TwoMatchesClash(items: seq<Item>, idc: int, stc: int, v: string, i: nat, j: nat)
    requires GoodItems(items, idc, stc) && stc >= 0 && i < j < |items|
    requires Matches(items[i].row, StudentIs(v), stc) && Matches(items[j].row, StudentIs(v), stc)
    ensures Clash(items, stc, i, j)
  {
    NumberMatches(items, idc, stc, v, i);
    NumberMatches(items, idc, stc, v, j);
    GoodItemsIffPairwise(items, idc, stc);
    assert GoodTogether(items[i].row, items[j].row, idc, stc);
  }

  /**
    No search for a student number loses a row by stopping at the first match exactly
    when no two stored student numbers are the same number.
   */
  lemma StopLosesNothingIff(items: seq<Item>, idc: int, stc: int)
    requires GoodItems(items, idc, stc) && stc >= 0
    ensures (forall v :: UpTo(Filter(items, StudentIs(v), stc), true) == Filter(items, StudentIs(v), stc))
       <==> NoClash(items, stc)
  {
    if i: nat, j: nat :| Clash(items, stc, i, j) {
      var v := StudentOf(items[i].row, stc);
      NumberMatches(items, idc, stc, v, i);
      NumberMatches(items, idc, stc, v, j);
      FilterHasTwo(items, StudentIs(v), stc, i, j);
      UpToIsAll(Filter(items, StudentIs(v), stc));
    } else {
      forall v ensures UpTo(Filter(items, StudentIs(v), stc), true) == Filter(items, StudentIs(v), stc) {
        forall i: nat, j: nat | i < j < |items|
          ensures !(Matches(items[i].row, StudentIs(v), stc) && Matches(items[j].row, StudentIs(v), stc))
        {
          if Matches(items[i].row, StudentIs(v), stc) && Matches(items[j].row, StudentIs(v), stc) {
            TwoMatchesClash(items, idc, stc, v, i, j);
          }
        }
        FilterAtMostOne(items, StudentIs(v), stc);
        UpToIsAll(Filter(items, StudentIs(v), stc));
      }
    }
  }

  /** Every row, where the student number is v. */
  function AllWhereStudentIs(v: string): SelectStatement {
    SelectStatement(true, [], StudentIs(v))
  }

  lemma PresentAll(t: Table, v: string, rows: seq<Row>)
    requires AllOfWidth(rows, |t.columns|)
    ensures var a := Present(t, AllWhereStudentIs(v), rows); a.Answer? && |a.rows| == |rows|
  {
    var out := ProjectAllMeaning(rows, AllPositions(t.columns), |t.columns|);
  }

  /** What a search by student number answers. */
  lemma StopAnswer(s: State, t: Table, q: SelectStatement)
    requires Sound(s, t) && StopsEarly(q.where_) && WhereColumn(t, q.where_) >= 0
    ensures Select(s, t, q).1 == CutReference(t, RowsIn(s, t), q)
  {
    SelectAfterActivation(s, t, q);
    NotBoth(q.where_.column);
    ScanPath(OpenState(s, t), t, q, RowsIn(s, t));
  }

  lemma CutDiffers(t: Table, v: string, all: seq<Row>)
    requires AllOfWidth(all, |t.columns|) && |all| >= 2
    ensures Present(t, AllWhereStudentIs(v), UpTo(all, true)) != Present(t, AllWhereStudentIs(v), all)
  {
    PresentAll(t, v, all);
    PresentAll(t, v, all[..1]);
  }

  /** Two rows with the same number make some SELECT lose a row. */
  lemma ClashLosesRow(s: State, t: Table, i: nat, j: nat)
    requires Sound(s, t) && StudentColumn(t) >= 0 && Clash(RowsIn(s, t), StudentColumn(t), i, j)
    ensures var q := AllWhereStudentIs(StudentOf(RowsIn(s, t)[i].row, StudentColumn(t)));
      StopsEarly(q.where_) && Select(s, t, q).1 != Reference(t, RowsIn(s, t), q)
  {
    var items, stc := RowsIn(s, t), StudentColumn(t);
    var v := StudentOf(items[i].row, stc);
    SoundFile(s, t);
    NumberMatches(items, IdColumn(t), stc, v, i);
    NumberMatches(items, IdColumn(t), stc, v, j);
    FilterHasTwo(items, StudentIs(v), stc, i, j);
    FilterWidth(items, StudentIs(v), stc, |t.columns|);
    CutDiffers(t, v, Filter(items, StudentIs(v), stc));
    SameNameIffLowered("student_no", "student_no");
    StopAnswer(s, t, AllWhereStudentIs(v));
  }

  lemma SamePresent(t: Table, q: SelectStatement, items: seq<Item>)
    requires GoodItems(items, IdColumn(t), StudentColumn(t)) && StopsEarly(q.where_)
    requires WhereColumn(t, q.where_) >= 0 && NoClash(items, StudentColumn(t))
    ensures UpTo(Filter(items, q.where_, WhereColumn(t, q.where_)), true)
         == Filter(items, q.where_, WhereColumn(t, q.where_))
  {
    SameNameColumns(t.columns, q.where_.column, "student_no");
    StopLosesNothingIff(items, IdColumn(t), StudentColumn(t));
    SameFilter(items, q.where_, StudentIs(q.where_.value), StudentColumn(t));
  }

  lemma {:induction false} SameFilter(items: seq<Item>, w: Where, w': Where, wi: int)
    requires w.Where? && w'.Where? && w.value == w'.value && w.op == w'.op
    ensures Filter(items, w, wi) == Filter(items, w', wi)
  {
    if items != [] {
      SameFilter(items[1..], w, w', wi);
    }
  }

  /** Searches by student number are exact, all of them, exactly when no two stored ones are the same number. */
  lemma StudentSelectsExactIff(s: State, t: Table)
    requires Sound(s, t) && StudentColumn(t) >= 0
    ensures (forall q: SelectStatement :: StopsEarly(q.where_) ==> Select(s, t, q).1 == Reference(t, RowsIn(s, t), q))
       <==> NoClash(RowsIn(s, t), StudentColumn(t))
  {
    if i: nat, j: nat :| Clash(RowsIn(s, t), StudentColumn(t), i, j) {
      ClashLosesRow(s, t, i, j);
    } else {
      forall q: SelectStatement | StopsEarly(q.where_) ensures Select(s, t, q).1 == Reference(t, RowsIn(s, t), q) {
        StopSelectExact(s, t, q);
      }
    }
  }

  lemma StopSelectExact(s: State, t: Table, q: SelectStatement)
    requires Sound(s, t) && StopsEarly(q.where_) && NoClash(RowsIn(s, t), StudentColumn(t))
    ensures Select(s, t, q).1 == Reference(t, RowsIn(s, t), q)
  {
    SoundFile(s, t);
    if WhereColumn(t, q.where_) >= 0 {
      StopAnswer(s, t, q);
      SamePresent(t, q, RowsIn(s, t));
    } else {
      SelectIsFilter(s, t, q);
    }
  }

  /** A leading zero makes two student numbers different to the set and the same to WHERE. */
  lemma LeadingZeroClash()
    ensures "01" != "1" && SameNumber("01", "1")
  {
    assert "01"[..1] == "0" && "0"[..0] == "" && "1"[..0] == "";
    assert Decimal("0") == 0 && Decimal("01") == 1 && Decimal("1") == 1;
  }

  // ---- File order is id order ----

  lemma AppendInIdOrder(items: seq<Item>, item: Item, idc: int)
    requires InIdOrder(items, idc) && MaxIdOf(items, idc) < IdOf(item.row, idc)
    ensures InIdOrder(items + [item], idc)
  {
    var all := items + [item];
    assert forall i :: 0 <= i < |all| ==> all[i] == if i < |items| then items[i] else item;
    forall i | 0 <= i < |items| ensures IdOf(items[i].row, idc) < IdOf(item.row, idc) {
      InIds(items, idc, IdOf(items[i].row, idc));
      MaxIdBound(items, idc, IdOf(items[i].row, idc));
    }
  }

  lemma StoredInIdOrder(t: Table, b: string, row: Row)
    requires GoodFile(t, b) && Storable(row) && InIdOrder(ItemsOf(b), IdColumn(t))
    requires MaxIdOf(ItemsOf(b), IdColumn(t)) < MaxIdOf(ItemsOf(b + EncodeRow(row)), IdColumn(t))
    ensures InIdOrder(ItemsOf(b + EncodeRow(row)), IdColumn(t))
  {
    AppendKeepsClean(b, row);
    CachesOfAppend(ItemsOf(b), Item(|b|, row), IdColumn(t), StudentColumn(t));
    AppendInIdOrder(ItemsOf(b), Item(|b|, row), IdColumn(t));
  }

  /** A sound table whose file holds its rows in id order. */
  ghost predicate OrderedFor(s: State, t: Table, n: nat) {
    SoundFor(s, t, n) && InIdOrder(RowsIn(s, t), IdColumn(t))
  }

  lemma OpenStateRows(s: State, t: Table)
    requires Sound(s, t)
    ensures RowsIn(OpenState(s, t), t) == RowsIn(s, t)
  {
    SoundFile(s, t);
    GoodOpensItself(t, Opened(FileOf(s.files, t.path)));
  }

  lemma InsertInIdOrder(s: State, t: Table, cols: seq<string>, vals: seq<string>, n: nat)
    requires OrderedFor(s, t, n + 1) && ValuesFit(vals)
    ensures InIdOrder(RowsIn(Insert(s, t, cols, vals).0, t), IdColumn(t))
  {
    var b, id := Opened(FileOf(s.files, t.path)), NextId(MaxIdAt(s.files, t));
    NextIdIsLarger(MaxIdAt(s.files, t));
    SoundFile(s, t);
    OpenStateRows(s, t);
    var stored := InsertGood(s, t, cols, vals, id);
    if stored.Some? {
      GoodOpensItself(t, b + EncodeRow(stored.value));
      StoredInIdOrder(t, b, stored.value);
    }
  }

  lemma StepKeepsOrder(s: State, cat: Catalog, op: Request, p: string, n: nat)
    requires p in cat && OrderedFor(s, TableAt(cat, p), n + 1) && AdmissibleAt(p)(op)
    ensures OrderedFor(Step(s, cat, op).0, TableAt(cat, p), n)
  {
    var t := TableAt(cat, p);
    StepGood(s, cat, op, p, n);
    if op.path == p {
      OpenStateRows(s, t);
      match op
      case InsertRow(_, cols, vals) => InsertInIdOrder(s, t, cols, vals, n);
      case SelectRows(_, q) => ActivateGood(s, t);
    }
  }

  /** INSERT draws ids in file order, so a file in id order stays so over every run. */
  lemma RunKeepsIdOrder(s: State, cat: Catalog, ops: seq<Request>, p: string, left: nat)
    requires p in cat && OrderedFor(s, TableAt(cat, p), |ops| + left) && All(AdmissibleAt(p), ops)
    ensures OrderedFor(Run(Stepper(cat), s, ops).0, TableAt(cat, p), left)
  {
    var inv := (s: State, n: nat) => OrderedFor(s, TableAt(cat, p), n);
    forall s: State, m: nat, n: nat, op: Request | inv(s, m) && AdmissibleAt(p)(op) && m == n + 1
      ensures inv(Stepper(cat)(s, op).0, n)
    {
      StepKeepsOrder(s, cat, op, p, n);
    }
    RunKeeps(Stepper(cat), AdmissibleAt(p), inv, s, ops, left);
  }

  /**
    From an empty file, after any run over any number of tables in whatever state, every
    SELECT answers as the plain filter does, row for row and in order, unless it stops
    early at a student number.
   */
  lemma SelectAfterRun(files: map<string, string>, cat: Catalog, ops: seq<Request>, p: string, q: SelectStatement)
    requires p in cat && GoodTable(TableAt(cat, p)) && FileOf(files, p) == ""
    requires |ops| < U64_LIMIT && All(AdmissibleAt(p), ops) && !StopsEarly(q.where_)
    ensures var s, t := Run(Stepper(cat), Started(files), ops).0, TableAt(cat, p);
      Select(s, t, q).1 == Reference(t, RowsIn(s, t), q)
  {
    var t := TableAt(cat, p);
    EmptyFileGood(t);
    StartedSound(files, t);
    assert OrderedFor(Started(files), t, |ops| + 0);
    RunKeepsIdOrder(Started(files), cat, ops, p, 0);
    SelectIsFilter(Run(Stepper(cat), Started(files), ops).0, t, q);
  }
}
