/**
  A whole session: a script is parsed, its statements are addressed to data files and
  executed one after another, up to the first that fails.
 */
module Session {
  import opened Text
  import opened RowLog
  import opened Syntax
  import EngineSpec
  import opened Writing
  import opened Parser
  import opened Rendering
  import opened Runs
  import opened Transducer
  import opened RunTheorems
  import opened Sync
  import opened Tracking
  import opened Engine

  // ---- Addresses ----

  /** The data file of a table; an empty schema counts as none. */
  function DataPath(root: string, name: QualifiedName): string {
    if name.schema.Some? && name.schema.value != "" then
      root + ("/" + (name.schema.value + ("/" + (name.table + ".data"))))
    else root + ("/" + (name.table + ".data"))
  }

  function ToRequest(root: string, x: Statement): Request {
    match x
    case InsertInto(target, columns, values) => InsertRow(DataPath(root, target), columns, values)
    case SelectFrom(source, query) => SelectRows(DataPath(root, source), query)
  }

  function ToRequests(root: string, xs: seq<Statement>): seq<Request> {
    seq(|xs|, i requires 0 <= i < |xs| => ToRequest(root, xs[i]))
  }

  /** The first slash ends the first part. */
  lemma FirstSlash(a: string, x: string, b: string, y: string)
    requires a + ("/" + x) == b + ("/" + y) && '/' !in a && '/' !in b
    ensures a == b && x == y
  {
    var l, r := a + ("/" + x), b + ("/" + y);
    assert forall k :: 0 <= k < |a| ==> l[k] == a[k];
    assert forall k :: 0 <= k < |b| ==> r[k] == b[k];
    assert l[|a|] == '/' && r[|b|] == '/';
    assert l[..|a|] == a && r[..|b|] == b && l[|a| + 1..] == x && r[|b| + 1..] == y;
  }

  /** Where one part has a slash and the other has none, they differ. */
  lemma SlashOrNot(a: string, x: string, b: string)
    requires '/' !in b
    ensures a + ("/" + x) != b
  {
    assert (a + ("/" + x))[|a|] == '/';
  }

  lemma NoSlash(w: string)
    requires PlainName(w)
    ensures '/' !in w && '.' !in w && w != ""
  {
    forall k | 0 <= k < |w| ensures w[k] != '/' && w[k] != '.' {
      assert NameChar(w[k]);
    }
  }

  lemma SameTail(root: string, x: string, y: string)
    requires root + ("/" + x) == root + ("/" + y)
    ensures x == y
  {
    var l, r := root + ("/" + x), root + ("/" + y);
    assert l[|root| + 1..] == x && r[|root| + 1..] == y;
  }

  lemma SameTable(t: string, u: string)
    requires t + ".data" == u + ".data"
    ensures t == u
  {
    var l, r := t + ".data", u + ".data";
    assert |t| == |u| && l[..|t|] == t && r[..|t|] == u;
  }

  /** Different table names that the parser accepts have different data files. */
  lemma DataPathInjective(root: string, a: QualifiedName, b: QualifiedName)
    requires NameFits(a) && NameFits(b) && DataPath(root, a) == DataPath(root, b)
    ensures a == b
  {
    NoSlash(a.table);
    NoSlash(b.table);
    match (a.schema, b.schema)
    case (None, None) =>
      SameTail(root, a.table + ".data", b.table + ".data");
      SameTable(a.table, b.table);
    case (Some(s), Some(t)) =>
      NoSlash(s);
      NoSlash(t);
      SameTail(root, s + ("/" + (a.table + ".data")), t + ("/" + (b.table + ".data")));
      FirstSlash(s, a.table + ".data", t, b.table + ".data");
      SameTable(a.table, b.table);
    case (None, Some(t)) =>
      NoSlash(t);
      SlashOrNot(t, b.table + ".data", a.table + ".data");
      SameTail(root, a.table + ".data", t + ("/" + (b.table + ".data")));
    case (Some(s), None) =>
      NoSlash(s);
      SlashOrNot(s, a.table + ".data", b.table + ".data");
      SameTail(root, s + ("/" + (a.table + ".data")), b.table + ".data");
  }

  // ---- Execution ----

  predicate Failed(out: Output) {
    match out
    case Inserted(r) => r.Refused?
    case Selected(a) => a.SelectRefused?
    case NoSuchTable => true
  }

  /** The state and the outputs after the requests up to the first that fails. */
  ghost function RunRequests(s: EngineSpec.State, cat: Catalog, rs: seq<Request>): (EngineSpec.State, seq<Output>) {
    RunServed(Stepper(cat), Failed, s, rs)
  }

  /** What a statement says that worked. */
  predicate Worked(out: Output) {
    || (out.Inserted? && out.result.Stored?)
    || (out.Selected? && out.answer.Answer?)
  }

  /**
    A run is a run over its first requests: all that are answered but the last one work,
    and every request is answered unless the last answer is a failure.
   */
  lemma RunStopsAtFailure(s: EngineSpec.State, cat: Catalog, rs: seq<Request>)
    ensures var (s', outs) := RunRequests(s, cat, rs);
      && |outs| <= |rs| && (s', outs) == Run(Stepper(cat), s, rs[..|outs|])
      && (forall k :: 0 <= k < |outs| - 1 ==> Worked(outs[k]))
      && (|outs| < |rs| ==> outs != [] && !Worked(outs[|outs| - 1]))
  {
    ServedStops(Stepper(cat), Failed, s, rs);
    forall out: Output ensures Failed(out) <==> !Worked(out) {
    }
  }

  /**
    A statement that no table answers: an INSERT with lists of different length, whatever
    the catalog, and else one whose table is unknown. It changes nothing.
   */
  lemma Unanswered(s: EngineSpec.State, cat: Catalog, r: Request)
    ensures var lists := r.InsertRow? && |r.cols| != |r.vals|; var (s', out) := Step(s, cat, r);
      && (lists ==> (s', out) == (s, Inserted(EngineSpec.Refused(EngineSpec.CountMismatch))))
      && (!lists && r.path !in cat ==> (s', out) == (s, NoSuchTable))
      && (out == NoSuchTable ==> !lists && r.path !in cat)
  {
  }

  /** The engine serves one request. */
  method Execute(e: Engine, cat: Catalog, r: Request) returns (out: Output)
    requires e.Valid()
    modifies e, e.caches.Repr
    ensures e.Valid() && fresh(e.caches.Repr - old(e.caches.Repr))
    ensures (e.Snapshot(), out) == Step(old(e.Snapshot()), cat, r)
  {
    if r.InsertRow? && |r.cols| != |r.vals| {
      return Inserted(EngineSpec.Refused(EngineSpec.CountMismatch));
    }
    if r.path !in cat {
      return NoSuchTable;
    }
    match r {
      case InsertRow(p, cols, vals) =>
        var result := e.Insert(TableAt(cat, p), cols, vals);
        out := Inserted(result);
      case SelectRows(p, query) =>
        var answer := e.Select(TableAt(cat, p), query);
        out := Selected(answer);
    }
  }

  predicate NoneFailed(outs: seq<Output>) {
    forall k :: 0 <= k < |outs| ==> !Failed(outs[k])
  }

  lemma OneMoreOutput(outs: seq<Output>, out: Output)
    requires NoneFailed(outs)
    ensures NoneFailed(outs + [out]) <==> !Failed(out)
  {
    assert (outs + [out])[|outs|] == out;
  }

  /** The loop over the statements of a script. */
  method ExecuteAll(e: Engine, cat: Catalog, root: string, xs: seq<Statement>) returns (ok: bool, outs: seq<Output>)
    requires e.Valid()
    modifies e, e.caches.Repr
    ensures e.Valid() && fresh(e.caches.Repr - old(e.caches.Repr))
    ensures (e.Snapshot(), outs) == RunRequests(old(e.Snapshot()), cat, ToRequests(root, xs))
    ensures ok <==> NoneFailed(outs)
  {
    ghost var rs, start := ToRequests(root, xs), e.Snapshot();
    outs := [];
    ServedNothing(RunRequests(start, cat, rs));
    assert rs[0..] == rs;
    for i := 0 to |xs|
      invariant e.Valid() && fresh(e.caches.Repr - old(e.caches.Repr)) && NoneFailed(outs)
      invariant RunRequests(start, cat, rs) == Answered(outs, RunRequests(e.Snapshot(), cat, rs[i..]))
    {
      ghost var before := e.Snapshot();
      var out := Execute(e, cat, ToRequest(root, xs[i]));
      ServedStep(Stepper(cat), Failed, before, rs, i, outs, e.Snapshot(), out);
      OneMoreOutput(outs, out);
      outs := outs + [out];
      if Failed(out) {
        return false, outs;
      }
    }
    ServedAll(Stepper(cat), Failed, e.Snapshot(), rs, |xs|, outs);
    ok := true;
  }

  /** A script as text; nothing is executed when it does not parse. */
  method RunScript(e: Engine, cat: Catalog, root: string, text: string) returns (ok: bool, outs: seq<Output>)
    requires e.Valid()
    modifies e, e.caches.Repr
    ensures e.Valid() && fresh(e.caches.Repr - old(e.caches.Repr))
    ensures match Parse(text)
            case None => !ok && outs == [] && e.Snapshot() == old(e.Snapshot())
            case Some(xs) => (e.Snapshot(), outs) == RunRequests(old(e.Snapshot()), cat, ToRequests(root, xs))
    ensures Parse(text).Some? ==> (ok <==> NoneFailed(outs))
  {
    var script := ParseSqlScript(text);
    if script.None? {
      return false, [];
    }
    ok, outs := ExecuteAll(e, cat, root, script.value);
  }

  // ---- What a script can do to the files ----

  /** No value is longer than the reader accepts. */
  predicate ValuesShort(x: Statement) {
    x.InsertInto? ==> forall k :: 0 <= k < |x.values| ==> |x.values[k]| <= MAX_FIELD_BYTES
  }

  lemma ParsedIsPlain(root: string, x: Statement)
    requires Renders(x)
    ensures Plain(ToRequest(root, x)) && (ValuesShort(x) ==> Admissible(ToRequest(root, x)))
  {
  }

  /** The requests of a script that are served are its first ones, and plain. */
  lemma ServedOfScript(s: EngineSpec.State, cat: Catalog, root: string, text: string, xs: seq<Statement>)
    requires Parse(text) == Some(xs)
    ensures var done := Served(Stepper(cat), Failed, s, ToRequests(root, xs));
      && |done| <= |xs| && All(Plain, done)
      && ((forall k :: 0 <= k < |xs| ==> ValuesShort(xs[k])) ==> All(Admissible, done))
  {
    ParsedRenders(text, xs);
    var rs := ToRequests(root, xs);
    var done := Served(Stepper(cat), Failed, s, rs);
    ServedIsPrefix(Stepper(cat), Failed, s, rs);
    forall i | 0 <= i < |done| ensures Plain(done[i]) && (ValuesShort(xs[i]) ==> Admissible(done[i])) {
      assert done[i] == rs[i] == ToRequest(root, xs[i]);
      ParsedIsPlain(root, xs[i]);
    }
  }

  /**
    Whatever text is run, and whatever the other tables hold: if its values are short
    enough, a sound table is sound afterwards.
   */
  lemma ScriptKeepsInv(s: EngineSpec.State, cat: Catalog, root: string, text: string, xs: seq<Statement>,
                       p: string, left: nat)
    requires Parse(text) == Some(xs) && (forall k :: 0 <= k < |xs| ==> ValuesShort(xs[k]))
    requires p in cat && SoundFor(s, TableAt(cat, p), |xs| + left)
    ensures SoundFor(RunRequests(s, cat, ToRequests(root, xs)).0, TableAt(cat, p), left)
  {
    var done := Served(Stepper(cat), Failed, s, ToRequests(root, xs));
    ServedOfScript(s, cat, root, text, xs);
    assert All(AdmissibleAt(p), done);
    TableStaysSound(s, cat, done, p, left);
  }

  /**
    Whatever text a fresh process runs over whatever files: afterwards the caches of the
    active table say what its file says exactly when the statements served went well.
   */
  lemma ScriptCachesMatchIff(files: map<string, string>, cat: Catalog, root: string, text: string, xs: seq<Statement>,
                             p: string)
    requires Parse(text) == Some(xs) && Narrow(cat)
    requires RunRequests(EngineSpec.Started(files), cat, ToRequests(root, xs)).0.path == Some(p)
    ensures p in cat
    ensures var start := EngineSpec.Started(files);
      InSync(RunRequests(start, cat, ToRequests(root, xs)).0, TableAt(cat, p)) <==>
        WellAfterRun(start, cat, Served(Stepper(cat), Failed, start, ToRequests(root, xs)), false)
  {
    var start := EngineSpec.Started(files);
    ServedOfScript(start, cat, root, text, xs);
    CachesMatchIff(files, cat, Served(Stepper(cat), Failed, start, ToRequests(root, xs)), p);
  }
}
