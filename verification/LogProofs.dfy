/**
  Round trips of the row log: what was appended is what is read, at its offset and
  in a scan, whatever is appended later.
 */
module LogProofs {
  import opened Text
  import opened Sequences
  import opened RowLog

  predicate WithinLimits(row: Row) {
    1 <= |row| <= MAX_FIELDS && forall i :: 0 <= i < |row| ==> |row[i]| <= MAX_FIELD_BYTES
  }

  /** Values are C strings, so they hold no zero byte. */
  predicate CStrings(row: Row) {
    forall i :: 0 <= i < |row| ==> NoNul(row[i])
  }

  predicate Storable(row: Row) {
    WithinLimits(row) && CStrings(row)
  }

  // ---- One row ----

  /** w is what the file holds from pos on. */
  predicate Lies(b: string, pos: nat, w: string) {
    pos + |w| <= |b| && b[pos..pos + |w|] == w
  }

  lemma LiesApart(b: string, pos: nat, x: string, y: string)
    requires Lies(b, pos, x + y)
    ensures Lies(b, pos, x) && Lies(b, pos + |x|, y)
  {
    var w := b[pos..pos + |x + y|];
    assert w[..|x|] == x && w[|x|..] == y;
    assert b[pos..pos + |x|] == w[..|x|] && b[pos + |x|..pos + |x| + |y|] == w[|x|..];
  }

  lemma LiesBetween(pre: string, w: string, post: string)
    ensures Lies(pre + w + post, |pre|, w)
  {
  }

  /** A length-prefixed field begins with its length. */
  lemma LengthLies(b: string, pos: nat, field: string)
    requires Lies(b, pos, EncodeU32(|field|) + field) && |field| < U32_LIMIT
    ensures pos + 4 + |field| <= |b| && DecodeU32(b[pos..pos + 4]) == |field|
    ensures b[pos + 4..pos + 4 + |field|] == field
  {
    LiesApart(b, pos, EncodeU32(|field|), field);
    U32RoundTrip(|field|);
  }

  lemma FieldBack(b: string, pos: nat, field: string, next: nat)
    requires NoNul(field) && |field| <= MAX_FIELD_BYTES && next == pos + 4 + |field|
    requires Lies(b, pos, EncodeU32(|field|) + field)
    ensures FieldAt(b, pos) == Some((field, next))
  {
    LengthLies(b, pos, field);
    UpToNulShorter(field);
  }

  /** The first field of a row, and where the others are. */
  lemma FieldsApart(b: string, pos: nat, row: Row) returns (mid: nat)
    requires row != [] && |row[0]| < U32_LIMIT && Lies(b, pos, EncodeFields(row))
    ensures mid == pos + 4 + |row[0]| && mid + |EncodeFields(row[1..])| == pos + |EncodeFields(row)|
    ensures Lies(b, pos, EncodeU32(|row[0]|) + row[0]) && Lies(b, mid, EncodeFields(row[1..]))
  {
    LiesApart(b, pos, EncodeU32(|row[0]|) + row[0], EncodeFields(row[1..]));
    mid := pos + 4 + |row[0]|;
  }

  lemma FieldsStep(b: string, pos: nat, mid: nat, end: nat, row: Row)
    requires row != [] && pos <= mid <= |b|
    requires FieldAt(b, pos) == Some((row[0], mid)) && FieldsAt(b, mid, |row[1..]|) == Some((row[1..], end))
    ensures FieldsAt(b, pos, |row|) == Some((row, end))
  {
    assert [row[0]] + row[1..] == row;
  }

  lemma {:induction false} FieldsBack(b: string, pos: nat, row: Row, end: nat)
    requires CStrings(row) && forall i :: 0 <= i < |row| ==> |row[i]| <= MAX_FIELD_BYTES
    requires Lies(b, pos, EncodeFields(row)) && end == pos + |EncodeFields(row)|
    ensures FieldsAt(b, pos, |row|) == Some((row, end))
    decreases |row|
  {
    if row != [] {
      var mid := FieldsApart(b, pos, row);
      FieldBack(b, pos, row[0], mid);
      FieldsBack(b, mid, row[1..], end);
      FieldsStep(b, pos, mid, end, row);
    }
  }

  lemma SmallCount(n: nat)
    requires n < U32_LIMIT
    ensures n % U32_LIMIT == n
  {
  }

  lemma CountKept(row: Row)
    requires |row| < U32_LIMIT
    ensures EncodeRow(row) == EncodeU32(|row|) + EncodeFields(row)
  {
    SmallCount(|row|);
  }

  /** A written row begins with its count. */
  lemma CountLies(b: string, pos: nat, row: Row)
    requires Lies(b, pos, EncodeRow(row)) && |row| < U32_LIMIT
    ensures pos + 4 <= |b| && DecodeU32(b[pos..pos + 4]) == |row|
    ensures Lies(b, pos + 4, EncodeFields(row))
  {
    CountKept(row);
    LiesApart(b, pos, EncodeU32(|row|), EncodeFields(row));
    U32RoundTrip(|row|);
  }

  lemma RowBack(b: string, pos: nat, row: Row, end: nat)
    requires Storable(row) && Lies(b, pos, EncodeRow(row)) && end == pos + |EncodeRow(row)|
    ensures RowAt(b, pos) == Read(row, end)
  {
    CountLies(b, pos, row);
    FieldsBack(b, pos + 4, row, end);
  }

  /** A storable row is read back from where it was written, in the middle of any file. */
  lemma ReadBack(pre: string, row: Row, post: string)
    requires Storable(row)
    ensures RowAt(pre + EncodeRow(row) + post, |pre|) == Read(row, |pre| + |EncodeRow(row)|)
  {
    LiesBetween(pre, EncodeRow(row), post);
    RowBack(pre + EncodeRow(row) + post, |pre|, row, |pre| + |EncodeRow(row)|);
  }

  lemma {:induction false} FieldsFit(b: string, pos: nat, n: nat)
    requires pos <= |b| && FieldsAt(b, pos, n).Some?
    ensures forall i :: 0 <= i < n ==> |FieldsAt(b, pos, n).value.0[i]| <= MAX_FIELD_BYTES
    decreases n
  {
    if n > 0 {
      FieldsFit(b, FieldAt(b, pos).value.1, n - 1);
    }
  }

  lemma TooLong(b: string, pos: nat, field: string)
    requires MAX_FIELD_BYTES < |field| < U32_LIMIT && Lies(b, pos, EncodeU32(|field|) + field)
    ensures FieldAt(b, pos) == None
  {
    LengthLies(b, pos, field);
  }

  lemma FieldsStop(b: string, pos: nat, n: nat)
    requires pos <= |b| && n > 0
    requires FieldAt(b, pos).None? || FieldsAt(b, FieldAt(b, pos).value.1, n - 1) == None
    ensures FieldsAt(b, pos, n) == None
  {
  }

  /** A length above the limit stops the reader. */
  lemma {:induction false} LongFieldFails(b: string, pos: nat, row: Row, k: nat)
    requires CStrings(row) && Writable(row) && k < |row| && |row[k]| > MAX_FIELD_BYTES
    requires Lies(b, pos, EncodeFields(row))
    ensures FieldsAt(b, pos, |row|) == None
    decreases |row|
  {
    var mid := FieldsApart(b, pos, row);
    if |row[0]| > MAX_FIELD_BYTES {
      TooLong(b, pos, row[0]);
      FieldsStop(b, pos, |row|);
    } else {
      FieldBack(b, pos, row[0], mid);
      LongFieldFails(b, mid, row[1..], k - 1);
      FieldsStop(b, pos, |row|);
    }
  }

  /** A row beyond the limits of the reader can be written, and then reads as malformed whatever follows it. */
  lemma OverLimitIsMalformed(pre: string, row: Row, post: string)
    requires CStrings(row) && Writable(row) && |row| < U32_LIMIT && !WithinLimits(row)
    ensures RowAt(pre + EncodeRow(row) + post, |pre|) == Malformed
  {
    var b := pre + EncodeRow(row) + post;
    LiesBetween(pre, EncodeRow(row), post);
    CountLies(b, |pre|, row);
    if 1 <= |row| <= MAX_FIELDS {
      var k :| 0 <= k < |row| && |row[k]| > MAX_FIELD_BYTES;
      LongFieldFails(b, |pre| + 4, row, k);
    }
  }

  /** The writer checks no limit; the reader gets the row back exactly when the limits held. */
  lemma ReadBackIffWithinLimits(pre: string, row: Row, post: string)
    requires CStrings(row)
    ensures RowAt(pre + EncodeRow(row) + post, |pre|) == Read(row, |pre| + |EncodeRow(row)|) <==> WithinLimits(row)
  {
    var b := pre + EncodeRow(row) + post;
    if WithinLimits(row) {
      ReadBack(pre, row, post);
    } else if RowAt(b, |pre|).Read? {
      FieldsFit(b, |pre| + 4, DecodeU32(b[|pre|..|pre| + 4]));
    }
  }

  /** Later appends do not disturb a row that can be read. */
  lemma RowAtStable(b: string, more: string, pos: nat)
    requires pos <= |b| && RowAt(b, pos).Read?
    ensures RowAt(b + more, pos) == RowAt(b, pos)
  {
    assert (b + more)[pos..pos + 4] == b[pos..pos + 4];
    FieldsAtStable(b, more, pos + 4, DecodeU32(b[pos..pos + 4]));
  }

  lemma FieldAtStable(b: string, more: string, pos: nat)
    requires pos <= |b| && FieldAt(b, pos).Some?
    ensures FieldAt(b + more, pos) == FieldAt(b, pos)
  {
    var end := FieldAt(b, pos).value.1;
    assert (b + more)[pos..pos + 4] == b[pos..pos + 4];
    assert (b + more)[pos + 4..end] == b[pos + 4..end];
  }

  lemma {:induction false} FieldsAtStable(b: string, more: string, pos: nat, n: nat)
    requires pos <= |b| && FieldsAt(b, pos, n).Some?
    ensures FieldsAt(b + more, pos, n) == FieldsAt(b, pos, n)
    decreases n
  {
    if n > 0 {
      FieldAtStable(b, more, pos);
      FieldsAtStable(b, more, FieldAt(b, pos).value.1, n - 1);
    }
  }

  // ---- Scans ----

  datatype Item = Item(ref: nat, row: Row)

  /** The rows met, where the scan stopped, and whether it stopped at the end of the file. */
  datatype Scan = Scan(items: seq<Item>, end: nat, ok: bool)

  function ScanFrom(b: string, pos: nat): (s: Scan)
    requires pos <= |b|
    ensures pos <= s.end <= |b|
    decreases |b| - pos
  {
    match RowAt(b, pos)
    case Eof => Scan([], pos, true)
    case Malformed => Scan([], pos, false)
    case Read(row, next) =>
      var rest := ScanFrom(b, next);
      Scan([Item(pos, row)] + rest.items, rest.end, rest.ok)
  }

  function ItemsOf(b: string): seq<Item> {
    ScanFrom(b, 0).items
  }

  /** The file is rows from its first byte to its last. */
  predicate Clean(b: string) {
    ScanFrom(b, 0).ok && ScanFrom(b, 0).end == |b|
  }

  /** A scan of a longer file finds the rows of the clean part, then goes on behind it. */
  lemma {:induction false} ScanExtends(b: string, more: string, pos: nat)
    requires pos <= |b| && ScanFrom(b, pos).ok && ScanFrom(b, pos).end == |b|
    ensures var rest := ScanFrom(b + more, |b|);
      ScanFrom(b + more, pos) == Scan(ScanFrom(b, pos).items + rest.items, rest.end, rest.ok)
    decreases |b| - pos
  {
    var rest := ScanFrom(b + more, |b|);
    match RowAt(b, pos)
    case Eof =>
      assert [] + rest.items == rest.items;
    case Read(row, next) =>
      RowAtStable(b, more, pos);
      ScanExtends(b, more, next);
      AppendAssoc([Item(pos, row)], ScanFrom(b, next).items, rest.items);
  }

  lemma ScanEnd(b: string)
    ensures ScanFrom(b, |b|) == Scan([], |b|, true)
  {
  }

  lemma LiesLast(b: string, w: string)
    ensures Lies(b + w, |b|, w)
  {
  }

  lemma ScanStep(b: string, pos: nat, row: Row, next: nat)
    requires pos <= |b| && RowAt(b, pos) == Read(row, next)
    ensures var rest := ScanFrom(b, next); ScanFrom(b, pos) == Scan([Item(pos, row)] + rest.items, rest.end, rest.ok)
  {
  }

  lemma ScanOne(b: string, row: Row, all: string, end: nat)
    requires Storable(row) && all == b + EncodeRow(row) && end == |all|
    ensures ScanFrom(all, |b|) == Scan([Item(|b|, row)], end, true)
  {
    LiesLast(b, EncodeRow(row));
    RowBack(all, |b|, row, end);
    ScanEnd(all);
    ScanStep(all, |b|, row, end);
  }

  /** Appending to a clean file adds one row at the old end, and the file stays clean. */
  lemma AppendKeepsClean(b: string, row: Row)
    requires Clean(b) && Storable(row)
    ensures Clean(b + EncodeRow(row)) && ItemsOf(b + EncodeRow(row)) == ItemsOf(b) + [Item(|b|, row)]
  {
    ScanExtends(b, EncodeRow(row), 0);
    ScanOne(b, row, b + EncodeRow(row), |b + EncodeRow(row)|);
  }

  /** Every scanned row can be read again at its offset, and offsets go up. */
  lemma {:induction false} ScannedRowsCanBeRead(b: string, pos: nat, k: nat)
    requires pos <= |b| && k < |ScanFrom(b, pos).items|
    ensures var item := ScanFrom(b, pos).items[k];
      && pos <= item.ref < |b| && RowAt(b, item.ref).Read? && RowAt(b, item.ref).row == item.row
      && (k > 0 ==> ScanFrom(b, pos).items[k - 1].ref < item.ref)
    decreases |b| - pos
  {
    var next := RowAt(b, pos).next;
    if k > 0 {
      ScannedRowsCanBeRead(b, next, k - 1);
    }
  }

  /** A sequence of appends: the final file, and the offset each append reported. */
  function AppendAll(b: string, rows: seq<Row>): (string, seq<nat>) {
    if rows == [] then (b, [])
    else
      var (b', refs) := AppendAll(b, rows[..|rows| - 1]);
      (b' + EncodeRow(rows[|rows| - 1]), refs + [|b'|])
  }

  /** Rows with the offsets reported for them. */
  function Paired(refs: seq<nat>, rows: seq<Row>): seq<Item>
    requires |refs| == |rows|
  {
    if rows == [] then []
    else Paired(refs[..|rows| - 1], rows[..|rows| - 1]) + [Item(refs[|rows| - 1], rows[|rows| - 1])]
  }

  /** After any appends a scan yields the old rows and the new ones, in order, each at its reported offset. */
  lemma {:induction false} LogRoundTrip(b: string, rows: seq<Row>)
    requires Clean(b) && forall i :: 0 <= i < |rows| ==> Storable(rows[i])
    ensures var (b', refs) := AppendAll(b, rows);
      |refs| == |rows| && Clean(b') && ItemsOf(b') == ItemsOf(b) + Paired(refs, rows)
  {
    if rows != [] {
      var n := |rows| - 1;
      var (b1, refs1) := AppendAll(b, rows[..n]);
      LogRoundTrip(b, rows[..n]);
      AppendKeepsClean(b1, rows[n]);
      var refs := refs1 + [|b1|];
      assert refs[..n] == refs1;
      AppendAssoc(ItemsOf(b), Paired(refs1, rows[..n]), [Item(|b1|, rows[n])]);
    } else {
      assert ItemsOf(b) + [] == ItemsOf(b);
    }
  }

  /** A row read at its offset stays the same after any later appends. */
  lemma {:induction false} ReadsSurviveAppends(b: string, ref: nat, rows: seq<Row>)
    requires ref <= |b| && RowAt(b, ref).Read?
    ensures ref <= |AppendAll(b, rows).0| && RowAt(AppendAll(b, rows).0, ref) == RowAt(b, ref)
  {
    if rows != [] {
      var n := |rows| - 1;
      ReadsSurviveAppends(b, ref, rows[..n]);
      RowAtStable(AppendAll(b, rows[..n]).0, EncodeRow(rows[n]), ref);
    }
  }
}
