/**
  The caches over every run from any files: they say what the file of the active table
  says exactly while its last rebuild went well, the id counter has not wrapped since, and
  every row stored since was within the limits of the reader.
 */
module Tracking {
  import opened Text
  import opened RowLog
  import opened LogProofs
  import opened EngineSpec
  import opened Runs
  import opened Limits
  import opened Sync
  import opened Transducer
  import opened RunTheorems

  /** Values are C strings, and no table has 2^32 columns. */
  predicate Plain(op: Request) {
    op.InsertRow? ==> forall i :: 0 <= i < |op.vals| ==> NoNul(op.vals[i])
  }

  ghost predicate Narrow(cat: Catalog) {
    forall p :: p in cat ==> |cat[p]| < U32_LIMIT
  }

  /** A row that INSERT draws now will not put the caches out of step. */
  ghost predicate DrawsWell(s: State, t: Table, cols: seq<string>, vals: seq<string>) {
    forall row :: Draws(s, t, cols, vals, row) ==> s.counter < LAST_ID && WithinLimits(row)
  }

  /**
    Whether all is well after a statement, from whether it was before: a table that is not
    taken as active is rebuilt, and INSERT may then draw a row.
   */
  ghost predicate WellAfter(s: State, cat: Catalog, op: Request, well: bool) {
    if (op.InsertRow? && |op.cols| != |op.vals|) || op.path !in cat then well
    else
      var t := TableAt(cat, op.path);
      && (if TakenAsActive(s, t) then well else OpensWell(t, FileOf(s.files, t.path)))
      && (op.InsertRow? ==> DrawsWell(Activate(s, t).0, t, op.cols, op.vals))
  }

  /** The same over a run. */
  ghost predicate WellAfterRun(s: State, cat: Catalog, ops: seq<Request>, well: bool)
    decreases |ops|
  {
    if ops == [] then well
    else WellAfterRun(Step(s, cat, ops[0]).0, cat, ops[1..], WellAfter(s, cat, ops[0], well))
  }

  /** The active table is in step if all is well, and lost if not. */
  ghost predicate Known(s: State, cat: Catalog, well: bool) {
    match s.path
    case None => true
    case Some(p) => p in cat && if well then InSync(s, TableAt(cat, p)) else Lost(s, TableAt(cat, p))
  }

  lemma ActivationKnown(s: State, cat: Catalog, p: string, well: bool)
    requires p in cat && Known(s, cat, well)
    ensures var t := TableAt(cat, p); var (a, ok) := Activate(s, t);
      var now := if TakenAsActive(s, t) then well else OpensWell(t, FileOf(s.files, p));
      a.path == Some(p) && (now ==> ok) && Known(a, cat, now)
  {
    if !TakenAsActive(s, TableAt(cat, p)) {
      RebuildSync(s, TableAt(cat, p));
    }
  }

  lemma InsertKnown(s: State, cat: Catalog, p: string, cols: seq<string>, vals: seq<string>, well: bool)
    requires p in cat && s.path == Some(p) && Known(s, cat, well)
    requires |cols| == |vals| && Each(NoNul, vals) && |cat[p]| < U32_LIMIT
    ensures var t := TableAt(cat, p);
      Known(InsertActive(s, t, cols, vals).0, cat, well && DrawsWell(s, t, cols, vals))
  {
    var t := TableAt(cat, p);
    InsertTouches(s, t, cols, vals);
    if !well {
      LostStays(s, t, cols, vals);
    } else {
      var drawn := InsertActiveCases(s, t, cols, vals);
      if drawn.Some? {
        OneDraw(s, t, cols, vals, drawn.value);
        DrawnKeepsSync(s, t, cols, vals, drawn.value);
      }
    }
  }

  lemma OneDraw(s: State, t: Table, cols: seq<string>, vals: seq<string>, row: Row)
    requires Draws(s, t, cols, vals, row)
    ensures DrawsWell(s, t, cols, vals) <==> s.counter < LAST_ID && WithinLimits(row)
  {
    forall other | Draws(s, t, cols, vals, other) ensures other == row {
    }
  }

  lemma StepKnown(s: State, cat: Catalog, op: Request, well: bool)
    requires Known(s, cat, well) && Narrow(cat) && Plain(op)
    ensures Known(Step(s, cat, op).0, cat, WellAfter(s, cat, op, well))
  {
    if op.path in cat && !(op.InsertRow? && |op.cols| != |op.vals|) {
      var t := TableAt(cat, op.path);
      var a, ok := Activate(s, t).0, Activate(s, t).1;
      var now := if TakenAsActive(s, t) then well else OpensWell(t, FileOf(s.files, t.path));
      ActivationKnown(s, cat, op.path, well);
      match op
      case SelectRows(_, q) =>
      case InsertRow(_, cols, vals) =>
        if ok {
          InsertKnown(a, cat, op.path, cols, vals, now);
        }
    }
  }

  lemma {:induction false} RunKnown(s: State, cat: Catalog, ops: seq<Request>, well: bool)
    requires Known(s, cat, well) && Narrow(cat) && All(Plain, ops)
    ensures Known(Run(Stepper(cat), s, ops).0, cat, WellAfterRun(s, cat, ops, well))
    decreases |ops|
  {
    if ops != [] {
      StepKnown(s, cat, ops[0], well);
      RunKnown(Step(s, cat, ops[0]).0, cat, ops[1..], WellAfter(s, cat, ops[0], well));
    }
  }

  /**
    After any run from any files, whatever they hold: the caches of the active table say
    what its file says, and its rows are good, exactly when the run has gone well for it.
   */
  lemma CachesMatchIff(files: map<string, string>, cat: Catalog, ops: seq<Request>, p: string)
    requires Narrow(cat) && All(Plain, ops)
    requires Run(Stepper(cat), Started(files), ops).0.path == Some(p)
    ensures p in cat
    ensures InSync(Run(Stepper(cat), Started(files), ops).0, TableAt(cat, p))
       <==> WellAfterRun(Started(files), cat, ops, false)
  {
    var s := Run(Stepper(cat), Started(files), ops).0;
    RunKnown(Started(files), cat, ops, false);
    if Lost(s, TableAt(cat, p)) {
      LostIsNotInSync(s, TableAt(cat, p));
    }
  }
}
