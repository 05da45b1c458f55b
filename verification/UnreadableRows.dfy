/**
  Rows that INSERT reports as stored and that no later scan can read: rows beyond the
  limits of the reader, and rows written behind the stray bytes of a short text.
 */
module UnreadableRows {
  import opened RowLog
  import opened LogProofs
  import opened Migration
  import opened EngineSpec
  import opened Runs
  import opened Limits
  import opened Sync

  // ---- Rows beyond the limits ----

  /**
    With the caches in step and an id to spare, INSERT reports a drawn row as stored
    whatever its size; the file stays clean exactly when the row is within the limits.
   */
  lemma StoredKeepsFileIff(s: State, t: Table, cols: seq<string>, vals: seq<string>, row: Row)
    requires InSync(s, t) && s.counter < LAST_ID && Draws(s, t, cols, vals, row) && Writable(row)
    requires Each(NoNul, vals) && |t.columns| < U32_LIMIT
    ensures var (s', r) := InsertActive(s, t, cols, vals);
      && r == Stored(row)
      && FileOf(s'.files, t.path) == s.files[t.path] + EncodeRow(row)
      && (Clean(FileOf(s'.files, t.path)) <==> WithinLimits(row))
      && (WithinLimits(row) ==> InSync(s', t))
  {
    TroubleIff(s, t, cols, vals, row);
    DrawnOutcome(s, t, cols, vals, row);
    DrawnIsText(s, t, cols, vals, row);
    DrawnKeepsSync(s, t, cols, vals, row);
    if !WithinLimits(row) {
      UnreadableTail(s.files[t.path], row);
    }
  }

  lemma UnreadableTail(b: string, row: Row)
    requires Clean(b) && CStrings(row) && Writable(row) && |row| < U32_LIMIT && !WithinLimits(row)
    ensures ScanFrom(b + EncodeRow(row), 0) == Scan(ItemsOf(b), |b|, false) && !Clean(b + EncodeRow(row))
  {
    var all := b + EncodeRow(row);
    assert all == b + EncodeRow(row) + "";
    OverLimitIsMalformed(b, row, "");
    ScanExtends(b, EncodeRow(row), 0);
    assert ItemsOf(b) + [] == ItemsOf(b);
  }

  lemma LengthsStop(b: string, pos: nat, n: nat, length: nat)
    requires n > 0 && pos + 4 <= |b| && DecodeU32(b[pos..pos + 4]) == length
    requires length > MAX_FIELD_BYTES || !LengthsFit(b, pos + 4 + length, n - 1)
    ensures !LengthsFit(b, pos, n)
  {
  }

  lemma {:induction false} LongLengthDoesNotFit(b: string, pos: nat, row: Row, k: nat)
    requires Writable(row) && k < |row| && |row[k]| > MAX_FIELD_BYTES && Lies(b, pos, EncodeFields(row))
    ensures !LengthsFit(b, pos, |row|)
    decreases |row|
  {
    var mid := FieldsApart(b, pos, row);
    LengthLies(b, pos, row[0]);
    if |row[0]| <= MAX_FIELD_BYTES {
      LongLengthDoesNotFit(b, mid, row[1..], k - 1);
    }
    LengthsStop(b, pos, |row|, |row[0]|);
  }

  /** Alone in its file, such a row is taken for text. */
  lemma OverLimitAloneLooksLikeText(row: Row)
    requires Writable(row) && |row| < U32_LIMIT && !WithinLimits(row)
    ensures !LooksBinary(EncodeRow(row))
  {
    var b := EncodeRow(row);
    LiesLast("", b);
    assert "" + b == b;
    CountLies(b, 0, row);
    assert b[0..4] == b[..4];
    if 1 <= |row| <= MAX_FIELDS {
      var k :| 0 <= k < |row| && |row[k]| > MAX_FIELD_BYTES;
      LongLengthDoesNotFit(b, 4, row, k);
    }
  }

  /** Behind other rows it is not, and the next rebuild of the table fails. */
  lemma OverLimitFailsRebuild(s: State, t: Table, b: string, row: Row)
    requires Clean(b) && |b| >= 4 && CStrings(row) && Writable(row) && |row| < U32_LIMIT && !WithinLimits(row)
    requires FileOf(s.files, t.path) == b + EncodeRow(row) && !TakenAsActive(s, t)
    ensures LooksBinary(b + EncodeRow(row)) && !Activate(s, t).1
  {
    var all := b + EncodeRow(row);
    UnreadableTail(b, row);
    assert all[0..4] == all[..4];
    RowAtStable(b, EncodeRow(row), 0);
    FieldsLookBinary(all, 4, DecodeU32(all[..4]));
    if IdColumn(t) >= 0 {
      var k := ActivationStops(s, t);
    }
  }

  // ---- Rows behind a short text ----

  /** Four bytes with something in the upper two are no count of fields. */
  lemma HighBytes(s: string)
    requires |s| == 4 && (s[2] != '\0' || s[3] != '\0')
    ensures DecodeU32(s) > MAX_FIELDS
  {
    var s1, s2, s3 := s[1..], s[2..], s[3..];
    assert s1[1..] == s2 && s2[1..] == s3;
    assert FromBytes(s) >= 256 * FromBytes(s1) && FromBytes(s1) >= 256 * FromBytes(s2);
    assert FromBytes(s2) == s2[0] as nat + 256 * FromBytes(s3) && FromBytes(s3) >= s3[0] as nat;
  }

  lemma CountBytes(row: Row)
    requires 1 <= |row| <= MAX_FIELDS
    ensures |EncodeRow(row)| >= 4 && (EncodeRow(row)[0] != '\0' || EncodeRow(row)[1] != '\0')
  {
    CountKept(row);
    var w, n := EncodeU32(|row|), |row|;
    assert w[0] == (n % 256) as char && w[1..] == LowBytes(n / 256, 3);
    assert w[1] == LowBytes(n / 256, 3)[0] == (n / 256 % 256) as char;
    assert EncodeRow(row)[0] == w[0] && EncodeRow(row)[1] == w[1];
  }

  /**
    A text of two or three characters counts as an empty table. The first row written
    behind it cannot be read: the file is malformed from its first byte, and the next
    rebuild takes it for text.
   */
  lemma RowBehindShortText(b: string, row: Row)
    requires NoNul(b) && 2 <= |b| < 4 && 1 <= |row| <= MAX_FIELDS
    ensures LooksBinary(b) && ScanFrom(b, 0) == Scan([], 0, true)
    ensures var after := b + EncodeRow(row);
      ScanFrom(after, 0) == Scan([], 0, false) && !Clean(after) && !LooksBinary(after)
  {
    var after := b + EncodeRow(row);
    var head := after[..4];
    CountBytes(row);
    assert after[0..4] == head;
    assert if |b| == 2 then head[2] == EncodeRow(row)[0] && head[3] == EncodeRow(row)[1] else head[2] == b[2];
    HighBytes(head);
  }

  /** The engine says that this row was stored. */
  lemma ShortTextInsertIsStored(s: State, t: Table, cols: seq<string>, vals: seq<string>, row: Row)
    requires !TakenAsActive(s, t) && IdColumn(t) >= 0 && |cols| == |vals|
    requires NoNul(FileOf(s.files, t.path)) && 2 <= |FileOf(s.files, t.path)| < 4
    requires Draws(Activate(s, t).0, t, cols, vals, row) && Writable(row) && |t.columns| <= MAX_FIELDS
    ensures var b := FileOf(s.files, t.path); var (s', r) := Insert(s, t, cols, vals);
      && r == Stored(row) && FileOf(s'.files, t.path) == b + EncodeRow(row)
      && ScanFrom(b + EncodeRow(row), 0) == Scan([], 0, false) && !LooksBinary(b + EncodeRow(row))
  {
    var a := Activate(s, t).0;
    var k := ActivationStops(s, t);
    InsertAfterActivation(s, a, t, cols, vals);
    DrawnRow(a, t, cols, vals, row);
    DrawnOutcome(a, t, cols, vals, row);
    RowBehindShortText(FileOf(s.files, t.path), row);
  }
}
