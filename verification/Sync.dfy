/**
  When the caches of the active table say what its file says, over every run from any
  files: exactly while the last rebuild of that table found a clean file of good rows,
  the id counter has not wrapped since, and every row stored since was within the limits
  of the reader. Otherwise they stay wrong until the table is opened again.
 */
module Sync {
  import opened Entries
  import opened Text
  import opened Sequences
  import opened RowLog
  import opened LogProofs
  import opened Migration
  import opened EngineSpec
  import opened Rebuild
  import opened Runs
  import opened Limits

  // ---- Positions that a scan reaches ----

  ghost predicate Reaches(b: string, pos: nat, r: nat)
    requires pos <= |b|
    decreases |b| - pos
  {
    pos == r ||
    match RowAt(b, pos)
    case Eof => false
    case Malformed => false
    case Read(_, next) => Reaches(b, next, r)
  }

  lemma {:induction false} ReachesStable(b: string, more: string, pos: nat, r: nat)
    requires pos <= |b| && Reaches(b, pos, r)
    ensures Reaches(b + more, pos, r)
    decreases |b| - pos
  {
    if pos != r {
      RowAtStable(b, more, pos);
      ReachesStable(b, more, RowAt(b, pos).next, r);
    }
  }

  /** Where a scan stops is reached, and if that is not the end of the file, bytes are left. */
  lemma {:induction false} EndIsReached(b: string, pos: nat)
    requires pos <= |b|
    ensures Reaches(b, pos, ScanFrom(b, pos).end)
    ensures !ScanFrom(b, pos).ok ==> ScanFrom(b, pos).end < |b|
    decreases |b| - pos
  {
    match RowAt(b, pos)
    case Eof =>
    case Malformed =>
    case Read(_, next) => EndIsReached(b, next);
  }

  lemma {:induction false} ItemIsReached(b: string, pos: nat, k: nat)
    requires pos <= |b| && k < |ScanFrom(b, pos).items|
    ensures Reaches(b, pos, ScanFrom(b, pos).items[k].ref)
    decreases |b| - pos
  {
    if k > 0 {
      ItemIsReached(b, RowAt(b, pos).next, k - 1);
    }
  }

  /** The rows before row k, and all rows, lie in front of row k and of the end. */
  lemma {:induction false} RefsAscend(b: string, pos: nat, j: nat)
    requires pos <= |b| && j < |ScanFrom(b, pos).items|
    ensures var scan := ScanFrom(b, pos);
      scan.items[j].ref < scan.end && forall k :: j < k < |scan.items| ==> scan.items[j].ref < scan.items[k].ref
    decreases |b| - pos
  {
    var next := RowAt(b, pos).next;
    var rest := ScanFrom(b, next).items;
    if j > 0 {
      RefsAscend(b, next, j - 1);
    } else {
      forall k | 0 <= k < |rest| ensures next <= rest[k].ref {
        ScannedRowsCanBeRead(b, next, k);
      }
    }
    assert forall k :: 0 < k < |ScanFrom(b, pos).items| ==> ScanFrom(b, pos).items[k] == rest[k - 1];
  }

  /** A clean file has a row at every position that a scan reaches, but for its end. */
  lemma {:induction false} CleanReached(b: string, pos: nat, r: nat) returns (k: nat)
    requires pos <= |b| && ScanFrom(b, pos).ok && ScanFrom(b, pos).end == |b|
    requires Reaches(b, pos, r) && r < |b|
    ensures RowAt(b, r).Read? && k < |ScanFrom(b, pos).items| && ScanFrom(b, pos).items[k].ref == r
    decreases |b| - pos
  {
    k := 0;
    if pos != r {
      var rest := CleanReached(b, RowAt(b, pos).next, r);
      k := rest + 1;
    }
  }

  // ---- The index and the offsets it holds ----

  ghost predicate HasRef(index: seq<Entry>, r: nat) {
    exists e :: e in index && e.ref == r
  }

  ghost predicate RefsBelow(index: seq<Entry>, n: nat) {
    forall e :: e in index ==> e.ref < n
  }

  lemma IndexAfterRefs(index: seq<Entry>, id: u64, b: string, row: Row)
    ensures RefsBelow(index, |b|) ==> RefsBelow(IndexAfter(index, id, b, row), |b + EncodeRow(row)|)
    ensures forall r: nat :: r < |b| && !HasRef(index, r) ==> !HasRef(IndexAfter(index, id, b, row), r)
  {
    forall e ensures e in Inserted(index, id, |b|) <==> e in index || e == Entry(id, |b|) {
      InsertedMembers(index, id, |b|, e);
    }
    LongerFile(b, row);
  }

  /** The index of a file holds offsets of its rows only. */
  lemma IndexRefs(items: seq<Item>, idc: int, n: nat)
    requires forall i :: 0 <= i < |items| ==> items[i].ref < n
    ensures RefsBelow(IndexOf(items, idc), n)
  {
    forall e | e in IndexOf(items, idc) ensures e.ref < n {
      IndexIsRows(items, idc, e);
    }
  }

  lemma RowIsIndexed(items: seq<Item>, idc: int, k: nat)
    requires k < |items|
    ensures HasRef(IndexOf(items, idc), items[k].ref)
  {
    IndexIsRows(items, idc, EntryOf(items[k], idc));
    assert HasEntry(items, idc, EntryOf(items[k], idc));
  }

  // ---- In step, or lost ----

  /** The table is active over a clean file of good rows, and its caches say what the file says. */
  ghost predicate InSync(s: State, t: Table) {
    match s.path
    case None => false
    case Some(p) =>
      && p == t.path && IdColumn(t) >= 0 && p in s.files && Clean(s.files[p])
      && GoodItems(ItemsOf(s.files[p]), IdColumn(t), StudentColumn(t))
      && s == ActiveState(s.files, t)
  }

  /** A scan reaches bytes that the index does not know. */
  ghost predicate Skipped(b: string, index: seq<Entry>, r: nat) {
    r < |b| && Reaches(b, 0, r) && !HasRef(index, r)
  }

  ghost predicate NeverRead(b: string, r: nat)
    requires r <= |b|
  {
    forall more :: !RowAt(b + more, r).Read?
  }

  /** A scan reaches bytes that are no row, whatever follows them. */
  ghost predicate Blocked(b: string, r: nat) {
    r < |b| && Reaches(b, 0, r) && NeverRead(b, r)
  }

  /** The last id is in use, and the counter has gone past it. */
  ghost predicate Wrapped(b: string, index: seq<Entry>, counter: u64) {
    Clean(b) && RefsBelow(index, |b|) && HasKey(index, LAST_ID) && counter < LAST_ID
  }

  ghost predicate Lost(s: State, t: Table) {
    var b := FileOf(s.files, t.path);
    || IdColumn(t) < 0
    || (exists r :: Skipped(b, s.index, r))
    || (exists r :: Blocked(b, r))
    || Wrapped(b, s.index, s.counter)
  }

  lemma LostIsNotInSync(s: State, t: Table)
    requires Lost(s, t)
    ensures !InSync(s, t)
  {
    var b, idc := FileOf(s.files, t.path), IdColumn(t);
    var items := ItemsOf(b);
    if InSync(s, t) {
      if r :| Skipped(b, s.index, r) {
        var k := CleanReached(b, 0, r);
        RowIsIndexed(items, idc, k);
      } else if r :| Blocked(b, r) {
        assert b + "" == b;
        var k := CleanReached(b, 0, r);
      } else {
        IndexKeys(items, idc, LAST_ID);
        MaxIdBound(items, idc, LAST_ID);
      }
    }
  }

  // ---- INSERT ----

  lemma SkippedStays(b: string, index: seq<Entry>, r: nat, id: u64, row: Row)
    requires Skipped(b, index, r)
    ensures Skipped(b + EncodeRow(row), IndexAfter(index, id, b, row), r)
  {
    ReachesStable(b, EncodeRow(row), 0, r);
    IndexAfterRefs(index, id, b, row);
  }

  lemma BlockedStays(b: string, r: nat, w: string)
    requires Blocked(b, r)
    ensures Blocked(b + w, r)
  {
    ReachesStable(b, w, 0, r);
    forall more ensures !RowAt(b + w + more, r).Read? {
      AppendAssoc(b, w, more);
      assert !RowAt(b + (w + more), r).Read?;
    }
  }

  /** One more row behind a clean file whose index stays within it. */
  lemma RowBehindClean(b: string, index: seq<Entry>, id: u64, row: Row)
    requires Clean(b) && RefsBelow(index, |b|) && CStrings(row) && |row| < U32_LIMIT
    ensures var b', index' := b + EncodeRow(row), IndexAfter(index, id, b, row);
      if !Writable(row) || HasKey(index, id) then Skipped(b', index', |b|)
      else if !WithinLimits(row) then Blocked(b', |b|)
      else Clean(b') && RefsBelow(index', |b'|)
  {
    var b' := b + EncodeRow(row);
    EndIsReached(b, 0);
    ReachesStable(b, EncodeRow(row), 0, |b|);
    LongerFile(b, row);
    assert |b| < |b'|;
    IndexAfterRefs(index, id, b, row);
    if Writable(row) && !WithinLimits(row) {
      forall more ensures !RowAt(b' + more, |b|).Read? {
        OverLimitIsMalformed(b, row, more);
      }
      assert NeverRead(b', |b|);
    } else if Writable(row) {
      AppendKeepsClean(b, row);
    }
  }

  /** Whatever INSERT does next, caches that are wrong stay wrong. */
  lemma LostStays(s: State, t: Table, cols: seq<string>, vals: seq<string>)
    requires Lost(s, t) && |cols| == |vals| && Each(NoNul, vals) && |t.columns| < U32_LIMIT
    ensures Lost(InsertActive(s, t, cols, vals).0, t)
  {
    if IdColumn(t) >= 0 {
      var drawn := InsertActiveCases(s, t, cols, vals);
      if drawn.Some? {
        DrawnStaysLost(s, t, cols, vals, drawn.value);
      }
    }
  }

  lemma DrawnStaysLost(s: State, t: Table, cols: seq<string>, vals: seq<string>, row: Row)
    requires Lost(s, t) && Draws(s, t, cols, vals, row) && Each(NoNul, vals) && |t.columns| < U32_LIMIT
    ensures Lost(InsertActive(s, t, cols, vals).0, t)
  {
    var b, s' := FileOf(s.files, t.path), InsertActive(s, t, cols, vals).0;
    var id := NextId(s.counter);
    DrawnOutcome(s, t, cols, vals, row);
    if r :| Skipped(b, s.index, r) {
      SkippedStays(b, s.index, r, id, row);
    } else if r :| Blocked(b, r) {
      BlockedStays(b, r, EncodeRow(row));
    } else {
      DrawnIsText(s, t, cols, vals, row);
      RowBehindClean(b, s.index, id, row);
      InsertedKeys(s.index, id, |b|, LAST_ID);
    }
  }

  lemma DrawnIsText(s: State, t: Table, cols: seq<string>, vals: seq<string>, row: Row)
    requires Draws(s, t, cols, vals, row) && Each(NoNul, vals)
    ensures CStrings(row) && |row| == |t.columns|
  {
    PrintedIdFits(NextId(s.counter));
    DrawnKeeps(NoNul, s, t, cols, vals, row);
    DrawnRow(s, t, cols, vals, row);
    assert forall i :: 0 <= i < |row| ==> NoNul(row[i]);
  }

  /** Caches in step stay so exactly while the counter does not wrap and the row is within the limits. */
  lemma DrawnKeepsSync(s: State, t: Table, cols: seq<string>, vals: seq<string>, row: Row)
    requires InSync(s, t) && Draws(s, t, cols, vals, row) && Each(NoNul, vals) && |t.columns| < U32_LIMIT
    ensures var s' := InsertActive(s, t, cols, vals).0;
      if s.counter < LAST_ID && WithinLimits(row) then InSync(s', t) else Lost(s', t)
  {
    DrawnIsText(s, t, cols, vals, row);
    DrawnIsStored(s, t, cols, vals, row);
    DrawnRow(s, t, cols, vals, row);
    NextIdIsLarger(s.counter);
    if s.counter < LAST_ID && WithinLimits(row) {
      StoreKeepsSync(s, t, row, NextId(s.counter));
    } else {
      DrawnLoses(s, t, cols, vals, row);
    }
  }

  lemma StoreKeepsSync(s: State, t: Table, row: Row, id: u64)
    requires InSync(s, t) && s.counter < id && FitToStore(s, t, row, id)
    ensures InSync(Store(s.(counter := id), t, row).0, t)
  {
    var b := s.files[t.path];
    StoreMatches(s, t, row, id);
    AboveCounterIsFresh(s.files, t, id);
    AppendKeepsClean(b, row);
    CachesOfAppend(ItemsOf(b), Item(|b|, row), IdColumn(t), StudentColumn(t));
  }

  lemma SyncedRefs(s: State, t: Table)
    requires InSync(s, t)
    ensures RefsBelow(s.index, |s.files[t.path]|)
  {
    var items := ItemsOf(s.files[t.path]);
    forall i | 0 <= i < |items| ensures items[i].ref < |s.files[t.path]| {
      RefsAscend(s.files[t.path], 0, i);
    }
    IndexRefs(items, IdColumn(t), |s.files[t.path]|);
  }

  lemma DrawnLoses(s: State, t: Table, cols: seq<string>, vals: seq<string>, row: Row)
    requires InSync(s, t) && Draws(s, t, cols, vals, row) && CStrings(row) && |row| == |t.columns| < U32_LIMIT
    requires s.counter == LAST_ID || !WithinLimits(row)
    ensures Lost(InsertActive(s, t, cols, vals).0, t)
  {
    var b, id := s.files[t.path], NextId(s.counter);
    var items := ItemsOf(b);
    SyncedRefs(s, t);
    DrawnOutcome(s, t, cols, vals, row);
    RowBehindClean(b, s.index, id, row);
    if s.counter == LAST_ID {
      MaxIdStored(items, IdColumn(t));
      IndexKeys(items, IdColumn(t), LAST_ID);
      InsertedKeys(s.index, id, |b|, LAST_ID);
    }
  }

  // ---- Activation ----

  /** What a rebuild needs of a table and its file. */
  ghost predicate OpensWell(t: Table, b: string) {
    && IdColumn(t) >= 0 && Prepared(b).Some? && Clean(Opened(b))
    && GoodItems(ItemsOf(Opened(b)), IdColumn(t), StudentColumn(t))
  }

  /** A rebuild leaves the caches in step exactly when it found what it needs. */
  lemma RebuildSync(s: State, t: Table)
    requires !TakenAsActive(s, t)
    ensures Activate(s, t).0.path == Some(t.path)
    ensures if OpensWell(t, FileOf(s.files, t.path)) then InSync(Activate(s, t).0, t) && Activate(s, t).1
            else Lost(Activate(s, t).0, t)
  {
    var b := FileOf(s.files, t.path);
    if Prepared(b).None? {
      UnpreparedIsBlocked(b);
      assert Blocked(b, 0);
    } else if IdColumn(t) >= 0 {
      var items := ItemsOf(Opened(b));
      var k := ActivationStops(s, t);
      FirstBadIsAll(items, k, IdColumn(t), StudentColumn(t));
      if OpensWell(t, b) {
      } else if k < |items| {
        StoppedBefore(Opened(b), k, IdColumn(t));
      } else {
        StoppedBehind(Opened(b), IdColumn(t));
      }
    }
  }

  /** The first bad row is reached and not indexed. */
  lemma StoppedBefore(b: string, k: nat, idc: int)
    requires k < |ItemsOf(b)|
    ensures Skipped(b, IndexOf(ItemsOf(b)[..k], idc), ItemsOf(b)[k].ref)
  {
    var items := ItemsOf(b);
    ItemIsReached(b, 0, k);
    ScannedRowsCanBeRead(b, 0, k);
    forall i | 0 <= i < k ensures items[..k][i].ref < items[k].ref {
      RefsAscend(b, 0, i);
    }
    IndexRefs(items[..k], idc, items[k].ref);
  }

  /** So are the bytes behind the last row, when a file is not clean. */
  lemma StoppedBehind(b: string, idc: int)
    requires !Clean(b)
    ensures Skipped(b, IndexOf(ItemsOf(b), idc), ScanFrom(b, 0).end)
  {
    EndIsReached(b, 0);
    forall i | 0 <= i < |ItemsOf(b)| ensures ItemsOf(b)[i].ref < ScanFrom(b, 0).end {
      RefsAscend(b, 0, i);
    }
    IndexRefs(ItemsOf(b), idc, ScanFrom(b, 0).end);
  }

  // ---- A text that cannot be migrated ----

  /** A length that the reader accepts has a zero among its four bytes. */
  lemma LengthHasNul(s: string)
    requires |s| == 4 && DecodeU32(s) <= MAX_FIELD_BYTES
    ensures !NoNul(s)
  {
    var s1, s2, s3 := s[1..], s[2..], s[3..];
    assert s1[1..] == s2 && s2[1..] == s3;
    assert FromBytes(s) == s[0] as nat + 256 * FromBytes(s1) && FromBytes(s1) == s1[0] as nat + 256 * FromBytes(s2);
    assert FromBytes(s2) == s2[0] as nat + 256 * FromBytes(s3) && FromBytes(s3) >= s3[0] as nat;
  }

  ghost predicate HasNul(b: string, q: nat, n: nat) {
    exists i :: q <= i < q + n && i < |b| && b[i] == '\0'
  }

  lemma FieldHasNul(b: string, pos: nat)
    requires pos <= |b| && FieldAt(b, pos).Some?
    ensures HasNul(b, pos, 4)
  {
    LengthHasNul(b[pos..pos + 4]);
    var i :| 0 <= i < 4 && b[pos..pos + 4][i] == '\0';
    assert b[pos + i] == '\0';
  }

  const STRETCH: nat := MAX_FIELD_BYTES + 8

  /** A row that can be read has a zero in every stretch of that many bytes. */
  lemma {:induction false} FieldsHaveNul(b: string, pos: nat, n: nat, q: nat)
    requires pos <= |b| && FieldsAt(b, pos, n).Some? && pos + 4 <= q + STRETCH
    requires q + STRETCH <= FieldsAt(b, pos, n).value.1
    ensures HasNul(b, q, STRETCH)
    decreases n
  {
    if n > 0 {
      if pos >= q {
        FieldHasNul(b, pos);
      } else {
        FieldsHaveNul(b, FieldAt(b, pos).value.1, n - 1, q);
      }
    }
  }

  lemma {:induction false} BeforeNul(s: string)
    ensures |UpToNul(s)| <= |s| && forall i :: 0 <= i < |UpToNul(s)| ==> s[i] != '\0'
  {
    if s != "" && s[0] != '\0' {
      BeforeNul(s[1..]);
      assert forall i :: 0 < i < |s| ==> s[i] == s[1..][i - 1];
    }
  }

  /** A field is no longer than the line in front of its first zero. */
  lemma {:induction false} SplitShort(line: string, cur: string, j: nat)
    requires j < |Split(line, cur)|
    ensures |Split(line, cur)[j]| <= |cur| + |UpToNul(line)|
  {
    if line == "" || line[0] == '\0' || line[0] == '\n' {
    } else if line[0] == '\r' {
      SplitShort(line[1..], cur, j);
    } else if line[0] == '|' {
      if j > 0 {
        SplitShort(line[1..], "", j - 1);
      }
    } else if line[0] == '\\' && |line| > 1 && Escaped(line[1]).Some? {
      assert line[1..][1..] == line[2..];
      SplitShort(line[2..], cur + [Escaped(line[1]).value], j);
    } else {
      SplitShort(line[1..], cur + [line[0]], j);
    }
  }

  lemma {:induction false} LongLine(text: string, pos: nat) returns (q: nat)
    requires pos <= |text| && !AllWritable(TextRows(text, pos))
    ensures q + U32_LIMIT <= |text| && forall i :: q <= i < q + U32_LIMIT ==> text[i] != '\0'
    decreases |text| - pos
  {
    var end := LineEnd(text, pos);
    var line := text[pos..end];
    var row := Split(line, "");
    if row != [""] && !Writable(row) {
      var j :| 0 <= j < |row| && |row[j]| >= U32_LIMIT;
      SplitShort(line, "", j);
      BeforeNul(line);
      q := pos;
      assert forall i :: pos <= i < pos + U32_LIMIT ==> text[i] == line[i - pos];
    } else {
      q := LongLine(text, end);
    }
  }

  lemma {:induction false} PrefixLooksBinary(b: string, more: string, pos: nat, n: nat)
    requires pos <= |b| && FieldsAt(b + more, pos, n).Some? && FieldsAt(b + more, pos, n).value.1 <= |b|
    ensures LengthsFit(b, pos, n)
    decreases n
  {
    if n > 0 {
      assert (b + more)[pos..pos + 4] == b[pos..pos + 4];
      PrefixLooksBinary(b, more, FieldAt(b + more, pos).value.1, n - 1);
    }
  }

  /** A text with a field of 2^32 bytes is not migrated, and no row is ever read at its start. */
  lemma UnpreparedIsBlocked(b: string)
    requires Prepared(b).None?
    ensures |b| >= 4 && NeverRead(b, 0)
  {
    var q := LongLine(b, 0);
    forall more ensures !RowAt(b + more, 0).Read? {
      NotReadable(b, more, q);
    }
  }

  lemma NotReadable(b: string, more: string, q: nat)
    requires |b| >= 4 && !LooksBinary(b)
    requires q + U32_LIMIT <= |b| && forall i :: q <= i < q + U32_LIMIT ==> b[i] != '\0'
    ensures !RowAt(b + more, 0).Read?
  {
    var all, n := b + more, DecodeU32(b[..4]);
    assert all[0..4] == b[..4];
    if RowAt(all, 0).Read? {
      if FieldsAt(all, 4, n).value.1 <= |b| {
        PrefixLooksBinary(b, more, 4, n);
      } else {
        FieldsHaveNul(all, 4, n, q);
      }
    }
  }
}
