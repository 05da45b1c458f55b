/**
  What the storage engine does, as functions on its whole state: the data files and
  the global variables that describe the one active table.
 */
module EngineSpec {
  import opened Entries
  import opened Text
  import opened RowLog
  import opened LogProofs
  import opened Migration
  import opened Syntax

  datatype Table = Table(path: string, columns: seq<string>)

  /** Files by path, then the globals: active path, index, id counter and student number cache. */
  datatype State = State(
    files: map<string, string>,
    path: Option<string>,
    ready: bool,
    index: seq<Entry>,
    counter: u64,
    students: Option<set<string>>,
    studentColumn: int)

  /** A process that has just started over the given files. */
  function Started(files: map<string, string>): State {
    State(files, None, false, [], 0, None, -1)
  }

  function FileOf(files: map<string, string>, path: string): string {
    if path in files then files[path] else ""
  }

  function IdColumn(t: Table): int { ColumnIndex(t.columns, "id") }

  function StudentColumn(t: Table): int { ColumnIndex(t.columns, "student_no") }

  // ---- Activation ----

  /** What a file is turned into before it is read: a text file is migrated, if that works. */
  function Prepared(b: string): Option<string> {
    if LooksBinary(b) then Some(b)
    else if AllWritable(TextRows(b, 0)) then Some(AppendAll("", TextRows(b, 0)).0)
    else None
  }

  /** The file is created if missing and migrated if it is text; no result if migration fails. */
  function PrepareFile(files: map<string, string>, path: string): Option<map<string, string>> {
    match Prepared(FileOf(files, path))
    case None => None
    case Some(b) => Some(files[path := b])
  }

  datatype Build = Build(index: seq<Entry>, students: Option<set<string>>, maxId: u64)

  /** One scanned row enters the caches; a refused row may leave its student number behind. */
  ghost function IndexRow(acc: Build, ref: RowRef, row: Row, idc: int, stc: int): (Build, bool) {
    if idc < 0 || idc >= |row| || ParseU64(row[idc]).None? then (acc, false)
    else if stc >= 0 && (stc >= |row| || row[stc] == "" || acc.students.None? || row[stc] in acc.students.value) then
      (acc, false)
    else
      var id := ParseU64(row[idc]).value;
      var students := if stc >= 0 then Some(acc.students.value + {row[stc]}) else acc.students;
      if HasKey(acc.index, id) then (acc.(students := students), false)
      else (Build(Inserted(acc.index, id, ref), students, if id > acc.maxId then id else acc.maxId), true)
  }

  ghost function BuildFrom(b: string, pos: nat, acc: Build, idc: int, stc: int): (Build, bool)
    requires pos <= |b|
    decreases |b| - pos
  {
    match RowAt(b, pos)
    case Eof => (acc, true)
    case Malformed => (acc, false)
    case Read(row, next) =>
      var (acc', ok) := IndexRow(acc, pos, row, idc, stc);
      if ok then BuildFrom(b, next, acc', idc, stc) else (acc', false)
  }

  /** Empty caches filled by a scan of the table's file, and whether that worked. */
  ghost function CachesFrom(s: State, t: Table, file: string): (State, bool) {
    var stc := StudentColumn(t);
    var students: Option<set<string>> := if stc >= 0 then Some({}) else None;
    var (acc, ok) := BuildFrom(file, 0, Build([], students, 0), IdColumn(t), stc);
    (s.(index := acc.index, students := acc.students, studentColumn := if stc >= 0 then stc else -1,
        counter := if ok then acc.maxId else s.counter), ok)
  }

  /** The caches of a table built anew; a table without id column gets an empty index. */
  ghost function Rebuilt(s: State, t: Table, file: string): (State, bool) {
    var s1 := s.(ready := true, index := []);
    if IdColumn(t) < 0 then (s1, false) else CachesFrom(s1, t, file)
  }

  /** The path and the ready flag alone decide whether the caches are kept. */
  ghost function Activate(s: State, t: Table): (State, bool) {
    if s.path == Some(t.path) && s.ready then (s, true)
    else
      var s1 := s.(path := Some(t.path), students := None, studentColumn := -1);
      match PrepareFile(s.files, t.path)
      case None => (s1, false)
      case Some(files) => Rebuilt(s1.(files := files), t, files[t.path])
  }

  // ---- INSERT ----

  datatype InsertError =
    | CountMismatch | ActivationFailed | UnknownColumn | RepeatedColumn | NoIdColumn
    | StudentNoMissing | StudentNoEmpty | StudentNoTaken
    | WriteFailed | IdTaken | LateStudentNoTaken | CacheFailed

  datatype InsertOutcome = Stored(row: Row) | Refused(error: InsertError)

  datatype Filled = Filled(row: Row, given: set<int>) | BadColumn(error: InsertError)

  function BlankRow(columns: seq<string>): Row {
    seq(|columns|, i => "")
  }

  /** The values go to their columns from position i on; a value given for id is ignored. */
  function Fill(columns: seq<string>, cols: seq<string>, vals: seq<string>, i: nat, row: Row, given: set<int>)
    : (f: Filled)
    requires i <= |cols| == |vals| && |row| == |columns|
    ensures f.Filled? ==> |f.row| == |columns|
    ensures f.BadColumn? ==> f.error == UnknownColumn || f.error == RepeatedColumn
    decreases |cols| - i
  {
    if i == |cols| then Filled(row, given)
    else
      var target := ColumnIndex(columns, cols[i]);
      if target < 0 then BadColumn(UnknownColumn)
      else if target in given then BadColumn(RepeatedColumn)
      else
        var row' := if SameName(columns[target], "id") then row else row[target := vals[i]];
        Fill(columns, cols, vals, i + 1, row', given + {target})
  }

  /** The checks on the student number before an id is drawn. */
  function StudentCheck(s: State, t: Table, f: Filled): Option<InsertError>
    requires f.Filled? && |f.row| == |t.columns|
  {
    var stc := StudentColumn(t);
    if stc < 0 then None
    else if stc !in f.given then Some(StudentNoMissing)
    else if f.row[stc] == "" then Some(StudentNoEmpty)
    else if s.studentColumn == stc && s.students.Some? && f.row[stc] in s.students.value then Some(StudentNoTaken)
    else None
  }

  /** The last step of INSERT: the student number of the written row enters the cache. */
  ghost function CacheNumber(s: State, t: Table, row: Row): (State, InsertOutcome)
    requires |row| == |t.columns|
  {
    var stc := StudentColumn(t);
    if stc < 0 then (s, Stored(row))
    else if s.students.None? then (s, Refused(CacheFailed))
    else if row[stc] in s.students.value then (s, Refused(LateStudentNoTaken))
    else (s.(students := Some(s.students.value + {row[stc]})), Stored(row))
  }

  /** From the drawn id to the end: write the row, then the index, then the student number cache. */
  ghost function Store(s: State, t: Table, row: Row): (State, InsertOutcome)
    requires |row| == |t.columns|
  {
    var b := FileOf(s.files, t.path);
    var s1 := s.(files := s.files[t.path := b + EncodeRow(row)]);
    if !Writable(row) then (s1, Refused(WriteFailed))
    else if HasKey(s.index, s.counter) then (s1, Refused(IdTaken))
    else CacheNumber(s1.(index := Inserted(s.index, s.counter, |b|)), t, row)
  }

  /** The id counter wraps at 64 bits. */
  function NextId(counter: u64): u64 {
    (counter + 1) % U64_LIMIT
  }

  ghost function Insert(s: State, t: Table, cols: seq<string>, vals: seq<string>): (State, InsertOutcome) {
    if |cols| != |vals| then (s, Refused(CountMismatch))
    else
      var (s1, ok) := Activate(s, t);
      if ok then InsertActive(s1, t, cols, vals) else (s1, Refused(ActivationFailed))
  }

  /** INSERT once the table is active. */
  ghost function InsertActive(s: State, t: Table, cols: seq<string>, vals: seq<string>): (State, InsertOutcome)
    requires |cols| == |vals|
  {
    var f := Fill(t.columns, cols, vals, 0, BlankRow(t.columns), {});
    if f.BadColumn? then (s, Refused(f.error))
    else if IdColumn(t) < 0 then (s, Refused(NoIdColumn))
    else if StudentCheck(s, t, f).Some? then (s, Refused(StudentCheck(s, t, f).value))
    else
      var id := NextId(s.counter);
      Store(s.(counter := id), t, f.row[IdColumn(t) := Print(id)])
  }

  // ---- SELECT ----

  datatype SelectError =
    | SelectActivationFailed | IdPathFailed | RangePathFailed | LinearPathFailed | UnknownSelected | BadProjection

  datatype SelectOutcome = Answer(columns: seq<string>, rows: seq<Row>) | SelectRefused(error: SelectError)

  predicate OnId(w: Where) {
    w.Where? && SameName(w.column, "id") && ParseU64(w.value).Some?
  }

  /** The entries whose id satisfies the comparison, in index order. */
  function Matching(index: seq<Entry>, op: Op, id: u64): seq<Entry> {
    if index == [] then []
    else (if Satisfies(index[0].key, op, id) then [index[0]] else []) + Matching(index[1..], op, id)
  }

  /** The row an entry points at, if it has as many fields as the table has columns. */
  function RowByRef(b: string, ref: RowRef, width: nat): Option<Row> {
    if ref > |b| then None
    else match RowAt(b, ref)
         case Read(row, _) => if |row| == width then Some(row) else None
         case Eof => None
         case Malformed => None
  }

  /** The rows of all entries, or nothing when one of them cannot be read. */
  function RowsByRefs(b: string, es: seq<Entry>, width: nat): Option<seq<Row>> {
    if es == [] then Some([])
    else
      var row := RowByRef(b, es[0].ref, width);
      var rest := RowsByRefs(b, es[1..], width);
      if row.Some? && rest.Some? then Some([row.value] + rest.value) else None
  }

  /** Whether a scanned row passes the WHERE clause; wi is the column it names. */
  predicate Passes(row: Row, w: Where, wi: int)
    requires w.Where? ==> 0 <= wi < |row|
  {
    w.NoWhere? || ValueMatches(row[wi], w.value, w.op)
  }

  /** The scan: rows that pass, in file order, up to the first one when stop is set. */
  function LinearFrom(b: string, pos: nat, w: Where, wi: int, stop: bool): Option<seq<Row>>
    requires pos <= |b| && (w.Where? ==> wi >= 0)
    decreases |b| - pos
  {
    match RowAt(b, pos)
    case Eof => Some([])
    case Malformed => None
    case Read(row, next) =>
      if w.Where? && wi >= |row| then None
      else if Passes(row, w, wi) then
        if stop then Some([row])
        else
          var rest := LinearFrom(b, next, w, wi, stop);
          if rest.Some? then Some([row] + rest.value) else None
      else LinearFrom(b, next, w, wi, stop)
  }

  function Linear(b: string, t: Table, w: Where): Option<seq<Row>> {
    match w
    case NoWhere => LinearFrom(b, 0, w, -1, false)
    case Where(column, _, op) =>
      var wi := ColumnIndex(t.columns, column);
      if wi < 0 then None else LinearFrom(b, 0, w, wi, op == Equal && SameName(column, "student_no"))
  }

  /** The rows before projection, by the path the WHERE clause selects. */
  function FullRows(s: State, t: Table, w: Where): Option<seq<Row>> {
    var b := FileOf(s.files, t.path);
    if OnId(w) then RowsByRefs(b, Matching(s.index, w.op, ParseU64(w.value).value), |t.columns|)
    else Linear(b, t, w)
  }

  function PathError(w: Where): SelectError {
    if !OnId(w) then LinearPathFailed else if w.op == Equal then IdPathFailed else RangePathFailed
  }

  /** The positions of the selected columns, or nothing when one is unknown. */
  function Positions(columns: seq<string>, selected: seq<string>): (r: Option<seq<int>>)
    ensures r.Some? ==> |r.value| == |selected| && InRange(r.value, |columns|)
    ensures r.Some? ==> forall i :: 0 <= i < |selected| ==> r.value[i] == ColumnIndex(columns, selected[i])
  {
    if selected == [] then Some([])
    else
      var p, rest := ColumnIndex(columns, selected[0]), Positions(columns, selected[1..]);
      if p >= 0 && rest.Some? then Some([p] + rest.value) else None
  }

  function AllPositions(columns: seq<string>): (ps: seq<int>)
    ensures InRange(ps, |columns|)
  {
    seq(|columns|, i => i)
  }

  predicate InRange(ps: seq<int>, width: nat) {
    forall i :: 0 <= i < |ps| ==> 0 <= ps[i] < width
  }

  function Project(row: Row, ps: seq<int>): Row
    requires InRange(ps, |row|)
  {
    seq(|ps|, i requires 0 <= i < |ps| => row[ps[i]])
  }

  function ProjectAll(rows: seq<Row>, ps: seq<int>): Option<seq<Row>> {
    if rows == [] then Some([])
    else
      var rest := ProjectAll(rows[1..], ps);
      if InRange(ps, |rows[0]|) && rest.Some? then Some([Project(rows[0], ps)] + rest.value) else None
  }

  ghost function Select(s: State, t: Table, q: SelectStatement): (State, SelectOutcome) {
    var (s1, ok) := Activate(s, t);
    if !ok then (s1, SelectRefused(SelectActivationFailed))
    else (s1, AnswerFrom(s1, t, q))
  }

  /** The selected columns of the given rows. */
  function Present(t: Table, q: SelectStatement, full: seq<Row>): SelectOutcome {
    var ps := if q.all then Some(AllPositions(t.columns)) else Positions(t.columns, q.columns);
    if ps.None? then SelectRefused(UnknownSelected)
    else
      var rows := ProjectAll(full, ps.value);
      if rows.None? then SelectRefused(BadProjection) else Answer(Project(t.columns, ps.value), rows.value)
  }

  function AnswerFrom(s: State, t: Table, q: SelectStatement): SelectOutcome {
    var full := FullRows(s, t, q.where_);
    if full.None? then SelectRefused(PathError(q.where_)) else Present(t, q, full.value)
  }
}
