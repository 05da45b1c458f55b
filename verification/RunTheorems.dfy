/**
  Theorems over whole runs of statements on any number of tables: the invariant,
  independence of tables, and restart transparency. Each is about one table; nothing is
  asked of the others.
 */
module RunTheorems {
  import opened Entries
  import opened Text
  import opened RowLog
  import opened LogProofs
  import opened Syntax
  import opened EngineSpec
  import opened Rebuild
  import opened Runs
  import opened Transducer

  datatype Request =
    | InsertRow(path: string, cols: seq<string>, vals: seq<string>)
    | SelectRows(path: string, query: SelectStatement)

  datatype Output = Inserted(result: InsertOutcome) | Selected(answer: SelectOutcome) | NoSuchTable

  /** An INSERT with unequal lists is refused before its table is looked up. */
  ghost function Step(s: State, cat: Catalog, op: Request): (State, Output) {
    if op.InsertRow? && |op.cols| != |op.vals| then (s, Inserted(Refused(CountMismatch)))
    else if op.path !in cat then (s, NoSuchTable)
    else
      match op
      case InsertRow(p, cols, vals) =>
        var (s', r) := EngineSpec.Insert(s, TableAt(cat, p), cols, vals);
        (s', Inserted(r))
      case SelectRows(p, q) =>
        var (s', r) := Select(s, TableAt(cat, p), q);
        (s', Selected(r))
  }

  ghost function Stepper(cat: Catalog): (State, Request) -> (State, Output) {
    (s: State, op: Request) => Step(s, cat, op)
  }

  /** The values of an INSERT are within the reader's limits. */
  predicate Admissible(op: Request) {
    op.InsertRow? ==> ValuesFit(op.vals)
  }

  /** The same of the statements on table p alone. */
  function AdmissibleAt(p: string): Request -> bool {
    (op: Request) => op.path == p ==> Admissible(op)
  }

  /** The table is sound and cannot run out of ids within n more statements. */
  ghost predicate SoundFor(s: State, t: Table, n: nat) {
    Sound(s, t) && MaxIdAt(s.files, t) + n < U64_LIMIT
  }

  ghost predicate InvFor(s: State, cat: Catalog, n: nat) {
    forall p :: p in cat ==> SoundFor(s, TableAt(cat, p), n)
  }

  // ---- One statement on the table ----

  /** What a statement on t may do to the state; id is the id that an INSERT would draw. */
  ghost predicate Evolved(s: State, s': State, t: Table, id: u64, b': string) {
    || s' == s
    || s' == OpenState(s, t)
    || (GoodFile(t, b') && s' == ActiveState(s.files[t.path := b'], t) && MaxIdOf(ItemsOf(b'), IdColumn(t)) == id)
  }

  /** A table made active over a good file is sound, and its file is the prepared one. */
  lemma ActivatedSound(s: State, t: Table, b: string)
    requires GoodTable(t) && GoodFile(t, b)
    ensures Sound(ActiveState(s.files[t.path := b], t), t)
    ensures MaxIdAt(ActiveState(s.files[t.path := b], t).files, t) == MaxIdOf(ItemsOf(b), IdColumn(t))
  {
    GoodOpensItself(t, b);
    ActiveIsSound(s.files[t.path := b], t);
  }

  lemma EvolvedSound(s: State, s': State, t: Table, id: u64, b': string)
    requires Sound(s, t) && Evolved(s, s', t, id, b')
    ensures Sound(s', t)
    ensures MaxIdAt(s'.files, t) == id || MaxIdAt(s'.files, t) == MaxIdAt(s.files, t)
  {
    SoundFile(s, t);
    ActivatedSound(s, t, Opened(FileOf(s.files, t.path)));
    if GoodFile(t, b') {
      ActivatedSound(s, t, b');
    }
  }

  lemma StepEvolves(s: State, cat: Catalog, op: Request, id: u64) returns (b': string)
    requires op.path in cat && Sound(s, TableAt(cat, op.path)) && Admissible(op)
    requires MaxIdAt(s.files, TableAt(cat, op.path)) < id == NextId(MaxIdAt(s.files, TableAt(cat, op.path)))
    ensures Evolved(s, Step(s, cat, op).0, TableAt(cat, op.path), id, b')
  {
    b' := "";
    match op
    case InsertRow(p, cols, vals) =>
      var stored := InsertGood(s, TableAt(cat, p), cols, vals, id);
      if stored.Some? {
        b' := Opened(FileOf(s.files, p)) + EncodeRow(stored.value);
      }
    case SelectRows(p, q) =>
      ActivateGood(s, TableAt(cat, p));
  }

  lemma StepOnTable(s: State, cat: Catalog, op: Request, n: nat)
    requires op.path in cat && SoundFor(s, TableAt(cat, op.path), n + 1) && Admissible(op)
    ensures SoundFor(Step(s, cat, op).0, TableAt(cat, op.path), n)
  {
    var t := TableAt(cat, op.path);
    var max := MaxIdAt(s.files, t);
    NextIdIsLarger(max);
    var b' := StepEvolves(s, cat, op, NextId(max));
    EvolvedSound(s, Step(s, cat, op).0, t, NextId(max), b');
  }

  // ---- One statement on another table ----

  /** The state is on p, and every other file is as before. */
  ghost predicate Touched(s: State, s': State, p: string) {
    s'.path == Some(p) && forall q :: q != p ==> FileOf(s'.files, q) == FileOf(s.files, q)
  }

  lemma ActivateTouches(s: State, t: Table)
    ensures Touched(s, Activate(s, t).0, t.path)
  {
  }

  lemma InsertTouches(s: State, t: Table, cols: seq<string>, vals: seq<string>)
    requires |cols| == |vals| && s.path == Some(t.path)
    ensures Touched(s, InsertActive(s, t, cols, vals).0, t.path)
  {
    var f := Fill(t.columns, cols, vals, 0, BlankRow(t.columns), {});
    if f.Filled? && IdColumn(t) >= 0 {
      StoreTouches(s.(counter := NextId(s.counter)), t, f.row[IdColumn(t) := Print(NextId(s.counter))]);
    }
  }

  lemma StoreTouches(s: State, t: Table, row: Row)
    requires |row| == |t.columns| && s.path == Some(t.path)
    ensures Touched(s, Store(s, t, row).0, t.path)
  {
  }

  /** A statement does nothing at all, or makes its own table active and touches no other file. */
  lemma StepTouches(s: State, cat: Catalog, op: Request)
    ensures Step(s, cat, op).0 == s || Touched(s, Step(s, cat, op).0, op.path)
  {
    if op.path in cat {
      var t := TableAt(cat, op.path);
      ActivateTouches(s, t);
      if op.InsertRow? && |op.cols| == |op.vals| {
        InsertTouches(Activate(s, t).0, t, op.cols, op.vals);
      }
    }
  }

  lemma TouchedSound(s: State, s': State, t: Table, p: string, n: nat)
    requires SoundFor(s, t, n + 1) && Touched(s, s', p) && p != t.path
    ensures SoundFor(s', t, n)
  {
    SoundFile(s, t);
  }

  // ---- The invariant over every run ----

  /**
    One statement, on whatever table and whatever that table's state, keeps p sound and
    touches only the file it names.
   */
  lemma StepGood(s: State, cat: Catalog, op: Request, p: string, n: nat)
    requires p in cat && SoundFor(s, TableAt(cat, p), n + 1) && AdmissibleAt(p)(op)
    ensures SoundFor(Step(s, cat, op).0, TableAt(cat, p), n)
    ensures forall q :: q != op.path ==> FileOf(Step(s, cat, op).0.files, q) == FileOf(s.files, q)
  {
    StepTouches(s, cat, op);
    if op.path == p {
      StepOnTable(s, cat, op, n);
    } else if Step(s, cat, op).0 != s {
      TouchedSound(s, Step(s, cat, op).0, TableAt(cat, p), op.path, n);
    }
  }

  /**
    Over every run, whatever the other tables hold, the caches of p say exactly what its
    file says whenever p is active, and the file stays a clean log of good rows once it
    has been opened; left is the number of statements still to come.
   */
  lemma TableStaysSound(s: State, cat: Catalog, ops: seq<Request>, p: string, left: nat)
    requires p in cat && SoundFor(s, TableAt(cat, p), |ops| + left) && All(AdmissibleAt(p), ops)
    ensures SoundFor(Run(Stepper(cat), s, ops).0, TableAt(cat, p), left)
  {
    var inv := (s: State, n: nat) => SoundFor(s, TableAt(cat, p), n);
    forall s: State, m: nat, n: nat, op: Request | inv(s, m) && AdmissibleAt(p)(op) && m == n + 1
      ensures inv(Stepper(cat)(s, op).0, n)
    {
      StepGood(s, cat, op, p, n);
    }
    RunKeeps(Stepper(cat), AdmissibleAt(p), inv, s, ops, left);
  }

  /** The same for all tables at once. */
  lemma RunKeepsInv(s: State, cat: Catalog, ops: seq<Request>, left: nat)
    requires InvFor(s, cat, |ops| + left) && All(Admissible, ops)
    ensures InvFor(Run(Stepper(cat), s, ops).0, cat, left)
  {
    forall p | p in cat ensures SoundFor(Run(Stepper(cat), s, ops).0, TableAt(cat, p), left) {
      assert All(AdmissibleAt(p), ops);
      TableStaysSound(s, cat, ops, p, left);
    }
  }

  /** In a fresh process every table is sound whose file is good or migrates to a good one. */
  lemma StartedSound(files: map<string, string>, t: Table)
    requires GoodTable(t) && OpensGood(t, FileOf(files, t.path))
    ensures Sound(Started(files), t)
  {
  }

  /** No row of an absent or empty file is bad. */
  lemma EmptyFileGood(t: Table)
    ensures GoodFile(t, "") && OpensGood(t, "") && Opened("") == ""
  {
    GoodOpensItself(t, "");
  }

  /** What soundness says of the caches of an active table, in terms of the rows of its file. */
  lemma SoundMeaning(s: State, t: Table)
    requires Sound(s, t) && s.path == Some(t.path)
    ensures var idc, stc, items := IdColumn(t), StudentColumn(t), ItemsOf(FileOf(s.files, t.path));
      && (forall e :: e in s.index <==> HasEntry(items, idc, e))
      && Ascending(s.index)
      && (forall i :: 0 <= i < |items| ==> IdOf(items[i].row, idc) <= s.counter)
      && (s.students.Some? <==> stc >= 0)
      && (stc >= 0 ==>
            forall x :: x in s.students.value <==> exists i :: 0 <= i < |items| && StudentOf(items[i].row, stc) == x)
      && PairwiseGood(items, idc, stc)
  {
    var idc, stc, items := IdColumn(t), StudentColumn(t), ItemsOf(FileOf(s.files, t.path));
    forall e ensures e in s.index <==> HasEntry(items, idc, e) {
      IndexIsRows(items, idc, e);
    }
    IndexAscending(items, idc, stc);
    forall i | 0 <= i < |items| ensures IdOf(items[i].row, idc) <= s.counter {
      InIds(items, idc, IdOf(items[i].row, idc));
      MaxIdBound(items, idc, IdOf(items[i].row, idc));
    }
    if stc >= 0 {
      forall x ensures x in s.students.value <==> exists i :: 0 <= i < |items| && StudentOf(items[i].row, stc) == x {
        InStudents(items, stc, x);
      }
    }
    GoodItemsIffPairwise(items, idc, stc);
  }

  // ---- Tables are independent; memory is transparent ----

  lemma StoreDependsOnFile(a1: State, a2: State, t: Table, row: Row)
    requires |row| == |t.columns| && a1 == a2.(files := a1.files)
    requires FileOf(a1.files, t.path) == FileOf(a2.files, t.path)
    ensures Store(a1, t, row).1 == Store(a2, t, row).1
    ensures FileOf(Store(a1, t, row).0.files, t.path) == FileOf(Store(a2, t, row).0.files, t.path)
  {
  }

  lemma InsertDependsOnFile(a1: State, a2: State, t: Table, cols: seq<string>, vals: seq<string>)
    requires |cols| == |vals| && a1 == a2.(files := a1.files) && FileOf(a1.files, t.path) == FileOf(a2.files, t.path)
    requires IdColumn(t) >= 0
    ensures InsertActive(a1, t, cols, vals).1 == InsertActive(a2, t, cols, vals).1
    ensures FileOf(InsertActive(a1, t, cols, vals).0.files, t.path)
         == FileOf(InsertActive(a2, t, cols, vals).0.files, t.path)
  {
    var f := Fill(t.columns, cols, vals, 0, BlankRow(t.columns), {});
    var id := NextId(a1.counter);
    if f.Filled? {
      StoreDependsOnFile(a1.(counter := id), a2.(counter := id), t, f.row[IdColumn(t) := Print(id)]);
    }
  }

  /** Two states that agree on the caches and on the file of t. */
  ghost predicate AgreeOn(a1: State, a2: State, t: Table) {
    a1 == a2.(files := a1.files) && FileOf(a1.files, t.path) == FileOf(a2.files, t.path)
  }

  lemma AnswerDependsOnCaches(a1: State, a2: State, t: Table, q: SelectStatement)
    requires AgreeOn(a1, a2, t)
    ensures AnswerFrom(a1, t, q) == AnswerFrom(a2, t, q)
  {
  }

  /** The files of t as t would find them on activation agree. */
  ghost predicate SameOpened(s: State, q: State, t: Table) {
    Opened(FileOf(s.files, t.path)) == Opened(FileOf(q.files, t.path))
  }

  lemma ActivatedAgree(s1: State, s2: State, t: Table) returns (a1: State, a2: State)
    requires Sound(s1, t) && Sound(s2, t) && SameOpened(s1, s2, t)
    ensures Activate(s1, t) == (a1, true) && Activate(s2, t) == (a2, true)
    ensures AgreeOn(a1, a2, t)
  {
    ActivateGood(s1, t);
    ActivateGood(s2, t);
    a1, a2 := OpenState(s1, t), OpenState(s2, t);
  }

  lemma StepAfterActivation(s: State, a: State, cat: Catalog, op: Request)
    requires op.path in cat && Activate(s, TableAt(cat, op.path)) == (a, true)
    ensures var t := TableAt(cat, op.path);
      match op
      case InsertRow(_, cols, vals) =>
        var (s', r) := if |cols| != |vals| then (s, Refused(CountMismatch)) else InsertActive(a, t, cols, vals);
        Step(s, cat, op).0 == s' && Step(s, cat, op).1 == Inserted(r)
      case SelectRows(_, q) => Step(s, cat, op).0 == a && Step(s, cat, op).1 == Selected(AnswerFrom(a, t, q))
  {
  }

  /** On sound tables a statement's answer and its effect depend on the file it names, and on nothing in memory. */
  lemma AnswerDependsOnFile(s1: State, s2: State, cat: Catalog, op: Request)
    requires op.path in cat && Sound(s1, TableAt(cat, op.path)) && Sound(s2, TableAt(cat, op.path))
    requires SameOpened(s1, s2, TableAt(cat, op.path))
    ensures Step(s1, cat, op).1 == Step(s2, cat, op).1
    ensures SameOpened(Step(s1, cat, op).0, Step(s2, cat, op).0, TableAt(cat, op.path))
  {
    var t := TableAt(cat, op.path);
    var a1, a2 := ActivatedAgree(s1, s2, t);
    StepAfterActivation(s1, a1, cat, op);
    StepAfterActivation(s2, a2, cat, op);
    match op
    case InsertRow(_, cols, vals) =>
      if |cols| == |vals| {
        InsertDependsOnFile(a1, a2, t, cols, vals);
      }
    case SelectRows(_, q) =>
      AnswerDependsOnCaches(a1, a2, t, q);
  }

  ghost predicate SameFile(s: State, q: State, t: Table, n: nat) {
    SoundFor(s, t, n) && SoundFor(q, t, n) && SameOpened(s, q, t)
  }

  ghost function SameFileRel(t: Table): (State, State, nat) -> bool {
    (s: State, q: State, n: nat) => SameFile(s, q, t, n)
  }

  function OnTable(p: string): Request -> bool {
    (op: Request) => op.path == p
  }

  lemma StepOnSameFile(s: State, q: State, cat: Catalog, p: string, op: Request, n: nat)
    requires p in cat && SameFile(s, q, TableAt(cat, p), n + 1) && AdmissibleAt(p)(op)
    ensures op.path == p ==> Step(s, cat, op).1 == Step(q, cat, op).1
    ensures op.path == p ==> SameFile(Step(s, cat, op).0, Step(q, cat, op).0, TableAt(cat, p), n)
    ensures op.path != p ==> SameFile(Step(s, cat, op).0, q, TableAt(cat, p), n)
  {
    StepGood(s, cat, op, p, n);
    StepGood(q, cat, op, p, n);
    if op.path == p {
      AnswerDependsOnFile(s, q, cat, op);
    }
  }

  /**
    Statements on other tables in between, good or bad, each of which may evict the
    caches, never change what the statements on p answer.
   */
  lemma TablesAreIndependent(s: State, q: State, cat: Catalog, ops: seq<Request>, p: string)
    requires p in cat && SameFile(s, q, TableAt(cat, p), |ops|) && All(AdmissibleAt(p), ops)
    ensures AnswersTo(Stepper(cat), OnTable(p), s, ops) == Run(Stepper(cat), q, Only(OnTable(p), ops)).1
  {
    var step, good, keep, rel := Stepper(cat), AdmissibleAt(p), OnTable(p), SameFileRel(TableAt(cat, p));
    forall s, q, op, n: nat ensures Advances(step, good, keep, rel, s, q, op, n) {
      if rel(s, q, n + 1) && good(op) {
        StepOnSameFile(s, q, cat, p, op, n);
      }
    }
    SkippingSimulation(step, good, keep, rel, s, q, ops);
  }

  /** Two memories in which p has the same file answer alike to every statement on p, for ever. */
  lemma AnswersAlike(s: State, q: State, cat: Catalog, ops: seq<Request>, p: string)
    requires p in cat && SameFile(s, q, TableAt(cat, p), |ops|) && All(AdmissibleAt(p), ops)
    ensures AnswersTo(Stepper(cat), OnTable(p), s, ops) == AnswersTo(Stepper(cat), OnTable(p), q, ops)
  {
    TablesAreIndependent(s, q, cat, ops, p);
    TablesAreIndependent(q, q, cat, ops, p);
  }

  ghost predicate SameFiles(s: State, q: State, cat: Catalog, n: nat) {
    forall p :: p in cat ==> SameFile(s, q, TableAt(cat, p), n)
  }

  ghost function SameFilesRel(cat: Catalog): (State, State, nat) -> bool {
    (s: State, q: State, n: nat) => SameFiles(s, q, cat, n)
  }

  function Any(): Request -> bool {
    (op: Request) => true
  }

  lemma StepOnSameFiles(s: State, q: State, cat: Catalog, op: Request, n: nat)
    requires SameFiles(s, q, cat, n + 1) && Admissible(op)
    ensures Step(s, cat, op).1 == Step(q, cat, op).1
    ensures SameFiles(Step(s, cat, op).0, Step(q, cat, op).0, cat, n)
  {
    if op.path in cat {
      AnswerDependsOnFile(s, q, cat, op);
    }
    forall p | p in cat ensures SameFile(Step(s, cat, op).0, Step(q, cat, op).0, TableAt(cat, p), n) {
      StepGood(s, cat, op, p, n);
      StepGood(q, cat, op, p, n);
    }
  }

  /** Two memories over the same sound tables, whatever they have cached, give the same answers for ever. */
  lemma MemoryIsTransparent(s: State, q: State, cat: Catalog, ops: seq<Request>)
    requires SameFiles(s, q, cat, |ops|) && All(Admissible, ops)
    ensures Run(Stepper(cat), s, ops).1 == Run(Stepper(cat), q, ops).1
  {
    var step, keep, rel := Stepper(cat), Any(), SameFilesRel(cat);
    forall s, q, op, n: nat ensures Advances(step, Admissible, keep, rel, s, q, op, n) {
      if rel(s, q, n + 1) && Admissible(op) {
        StepOnSameFiles(s, q, cat, op, n);
      }
    }
    Simulation(step, Admissible, keep, rel, s, q, ops);
  }

  /**
    A restart after any run: reactivation of p succeeds with the same caches and next id,
    and later statements on p answer the same, whatever runs in between.
   */
  lemma RestartAfterRun(s: State, cat: Catalog, ops: seq<Request>, later: seq<Request>, p: string)
    requires p in cat && SoundFor(s, TableAt(cat, p), |ops| + |later|)
    requires All(AdmissibleAt(p), ops) && All(AdmissibleAt(p), later)
    ensures var now := Run(Stepper(cat), s, ops).0; var restarted := Started(now.files);
      && AnswersTo(Stepper(cat), OnTable(p), now, later) == AnswersTo(Stepper(cat), OnTable(p), restarted, later)
      && Activate(restarted, TableAt(cat, p)) == Activate(now, TableAt(cat, p))
      && Activate(restarted, TableAt(cat, p)).1
  {
    TableStaysSound(s, cat, ops, p, |later|);
    var now, t := Run(Stepper(cat), s, ops).0, TableAt(cat, p);
    SoundFile(now, t);
    StartedSound(now.files, t);
    AnswersAlike(now, Started(now.files), cat, later, p);
    ActivateGood(now, t);
    ActivateGood(Started(now.files), t);
  }
}
