/**
  The row log byte by byte: which bytes a number, a field and a row are, what a reader
  makes of any bytes whatever, and what is left of a log that was cut off.
 */
module LogMeaning {
  import opened Text
  import opened RowLog
  import opened LogProofs
  import opened Migration

  // ---- Bytes ----

  /** Four bytes from pos on, the least significant first. */
  function NumberAt(b: string, pos: nat): nat
    requires pos + 4 <= |b|
  {
    b[pos] as nat + 0x100 * b[pos + 1] as nat + 0x10000 * b[pos + 2] as nat + 0x1000000 * b[pos + 3] as nat
  }

  lemma DecodeFour(s: string)
    requires |s| == 4
    ensures DecodeU32(s) == NumberAt(s, 0)
  {
    var s1, s2, s3 := s[1..], s[2..], s[3..];
    assert s1[1..] == s2 && s2[1..] == s3 && s3[1..] == "";
    assert FromBytes(s3) == s3[0] as nat;
    assert FromBytes(s2) == s2[0] as nat + 256 * FromBytes(s3);
    assert FromBytes(s1) == s1[0] as nat + 256 * FromBytes(s2);
  }

  lemma DecodeAt(b: string, pos: nat)
    requires pos + 4 <= |b|
    ensures DecodeU32(b[pos..pos + 4]) == NumberAt(b, pos)
  {
    DecodeFour(b[pos..pos + 4]);
  }

  /** A number below 2^32 is written as these four bytes. */
  lemma NumberIsWritten(n: nat)
    requires n < 0x1_0000_0000
    ensures NumberAt(EncodeU32(n), 0) == n
    ensures forall i :: 0 <= i < 4 ==> EncodeU32(n)[i] < 0x100 as char
  {
    var w := EncodeU32(n);
    U32RoundTrip(n);
    DecodeFour(w);
    LowBytesAreBytes(n, 4);
  }

  lemma {:induction false} LowBytesAreBytes(n: nat, k: nat)
    ensures forall i :: 0 <= i < k ==> LowBytes(n, k)[i] < 0x100 as char
    decreases k
  {
    if k > 0 {
      LowBytesAreBytes(n / 256, k - 1);
    }
  }

  // ---- Fields and rows ----

  /** A field: its length, at most 16 MiB, and so many bytes, of which those before the first zero count. */
  ghost predicate FieldBytes(b: string, pos: nat, field: string, next: nat) {
    && pos + 4 <= next <= |b|
    && var n := NumberAt(b, pos);
      && n <= 0x1000000 && next == pos + 4 + n && |field| <= n
      && (forall k :: 0 <= k < |field| ==> field[k] == b[pos + 4 + k] && field[k] != '\0')
      && (|field| < n ==> b[pos + 4 + |field|] == '\0')
  }

  lemma {:induction false} UpToNulIs(s: string)
    ensures var r := UpToNul(s);
      && |r| <= |s| && (forall k :: 0 <= k < |r| ==> r[k] == s[k] && r[k] != '\0')
      && (|r| < |s| ==> s[|r|] == '\0')
  {
    if s != "" && s[0] != '\0' {
      UpToNulIs(s[1..]);
    }
  }

  lemma OneReading(b: string, pos: nat, f: string, next: nat, g: string, to: nat)
    requires FieldBytes(b, pos, f, next) && FieldBytes(b, pos, g, to)
    ensures f == g && next == to
  {
    var raw := b[pos + 4..];
    assert forall k :: 0 <= k < |f| ==> raw[k] == f[k] != '\0';
    assert forall k :: 0 <= k < |g| ==> raw[k] == g[k] != '\0';
    assert |f| < NumberAt(b, pos) ==> raw[|f|] == '\0';
    assert |g| < NumberAt(b, pos) ==> raw[|g|] == '\0';
  }

  lemma FieldIsRead(b: string, pos: nat)
    requires pos <= |b| && FieldAt(b, pos).Some?
    ensures FieldBytes(b, pos, FieldAt(b, pos).value.0, FieldAt(b, pos).value.1)
  {
    DecodeAt(b, pos);
    UpToNulIs(b[pos + 4..pos + 4 + NumberAt(b, pos)]);
  }

  lemma FieldAtIff(b: string, pos: nat, field: string, next: nat)
    requires pos <= |b|
    ensures FieldAt(b, pos) == Some((field, next)) <==> FieldBytes(b, pos, field, next)
  {
    if FieldBytes(b, pos, field, next) {
      DecodeAt(b, pos);
      FieldIsRead(b, pos);
      OneReading(b, pos, field, next, FieldAt(b, pos).value.0, FieldAt(b, pos).value.1);
    } else if FieldAt(b, pos) == Some((field, next)) {
      FieldIsRead(b, pos);
    }
  }

  /** Fields one behind the other; the i-th lies between the i-th and the next position. */
  ghost predicate FieldsBetween(b: string, at: seq<nat>, row: Row) {
    |at| == |row| + 1 && forall i :: 0 <= i < |row| ==> FieldBytes(b, at[i], row[i], at[i + 1])
  }

  ghost predicate FieldsBytes(b: string, pos: nat, row: Row, next: nat) {
    exists at :: FieldsBetween(b, at, row) && at[0] == pos && at[|row|] == next
  }

  lemma {:induction false} FieldsAreRead(b: string, pos: nat, n: nat) returns (at: seq<nat>)
    requires pos <= |b| && FieldsAt(b, pos, n).Some?
    ensures var (row, next) := FieldsAt(b, pos, n).value;
      |row| == n && FieldsBetween(b, at, row) && at[0] == pos && at[n] == next
    decreases n
  {
    at := [pos];
    if n > 0 {
      var mid := FieldAt(b, pos).value.1;
      FieldIsRead(b, pos);
      var rest := FieldsAreRead(b, mid, n - 1);
      at := [pos] + rest;
    }
  }

  lemma {:induction false} FieldsCanBeRead(b: string, at: seq<nat>, row: Row)
    requires FieldsBetween(b, at, row) && at[0] <= |b|
    ensures FieldsAt(b, at[0], |row|) == Some((row, at[|row|]))
    decreases |row|
  {
    if row != [] {
      assert FieldBytes(b, at[0], row[0], at[1]);
      FieldAtIff(b, at[0], row[0], at[1]);
      forall i | 0 <= i < |row| - 1 ensures FieldBytes(b, at[1..][i], row[1..][i], at[1..][i + 1]) {
        assert FieldBytes(b, at[i + 1], row[i + 1], at[i + 2]);
      }
      FieldsCanBeRead(b, at[1..], row[1..]);
      FieldsStep(b, at[0], at[1], at[|row|], row);
    }
  }

  /** A row: the number of its fields, from 1 to 4096, and its fields. */
  ghost predicate RowBytes(b: string, pos: nat, row: Row, next: nat) {
    pos + 4 <= |b| && NumberAt(b, pos) == |row| && 1 <= |row| <= 0x1000 && FieldsBytes(b, pos + 4, row, next)
  }

  /** What any bytes at any position read as. */
  lemma RowAtIff(b: string, pos: nat)
    requires pos <= |b|
    ensures RowAt(b, pos) == Eof <==> |b| < pos + 4
    ensures forall row, next :: RowAt(b, pos) == Read(row, next) <==> RowBytes(b, pos, row, next)
  {
    if pos + 4 <= |b| {
      DecodeAt(b, pos);
    }
    forall row, next ensures RowAt(b, pos) == Read(row, next) <==> RowBytes(b, pos, row, next) {
      if RowAt(b, pos) == Read(row, next) {
        var at := FieldsAreRead(b, pos + 4, |row|);
      }
      if RowBytes(b, pos, row, next) {
        var at :| FieldsBetween(b, at, row) && at[0] == pos + 4 && at[|row|] == next;
        FieldsCanBeRead(b, at, row);
      }
    }
  }

  // ---- Rows as they are written ----

  /** A field with its own length in front of it. */
  ghost predicate FieldWritten(b: string, pos: nat, field: string, next: nat) {
    pos + 4 <= next <= |b| && NumberAt(b, pos) == |field| && b[pos + 4..next] == field
  }

  ghost predicate WrittenAt(b: string, at: seq<nat>, row: Row) {
    |at| == |row| + 1 && forall i :: 0 <= i < |row| ==> FieldWritten(b, at[i], row[i], at[i + 1])
  }

  lemma {:induction false} FieldsAreWritten(b: string, pos: nat, row: Row) returns (at: seq<nat>)
    requires Writable(row) && Lies(b, pos, EncodeFields(row))
    ensures WrittenAt(b, at, row) && at[0] == pos && at[|row|] == pos + |EncodeFields(row)|
    decreases |row|
  {
    at := [pos];
    if row != [] {
      var mid := FieldsApart(b, pos, row);
      LengthLies(b, pos, row[0]);
      DecodeAt(b, pos);
      assert FieldWritten(b, pos, row[0], mid);
      var rest := FieldsAreWritten(b, mid, row[1..]);
      at := MoreWritten(b, pos, row, rest);
    }
  }

  lemma MoreWritten(b: string, pos: nat, row: Row, rest: seq<nat>) returns (at: seq<nat>)
    requires row != [] && WrittenAt(b, rest, row[1..]) && FieldWritten(b, pos, row[0], rest[0])
    ensures WrittenAt(b, at, row) && at[0] == pos && at[|row|] == rest[|row| - 1]
  {
    at := [pos] + rest;
    forall i | 0 < i < |row| ensures FieldWritten(b, at[i], row[i], at[i + 1]) {
      assert FieldWritten(b, rest[i - 1], row[1..][i - 1], rest[i]);
    }
  }

  /** The bytes of a row: its number of fields, and then every field behind its length. */
  lemma RowIsWritten(row: Row) returns (at: seq<nat>)
    requires Writable(row) && |row| < 0x1_0000_0000
    ensures |EncodeRow(row)| >= 4 && NumberAt(EncodeRow(row), 0) == |row|
    ensures WrittenAt(EncodeRow(row), at, row) && at[0] == 4 && at[|row|] == |EncodeRow(row)|
  {
    var b := EncodeRow(row);
    LiesLast("", b);
    assert "" + b == b;
    CountLies(b, 0, row);
    DecodeAt(b, 0);
    CountKept(row);
    at := FieldsAreWritten(b, 4, row);
  }

  /** A field length that needs more than 32 bits ends the row there, with the fields before it written. */
  lemma {:induction false} FieldsBeforeHuge(row: Row, k: nat)
    requires k < |row| && |row[k]| >= 0x1_0000_0000 && Writable(row[..k])
    ensures EncodeFields(row) == EncodeFields(row[..k])
  {
    if k > 0 {
      var head, tail := row[..k], row[1..];
      assert head[1..] == tail[..k - 1];
      assert |head[0]| < U32_LIMIT;
      assert forall i :: 0 < i < k ==> tail[..k - 1][i - 1] == head[i];
      FieldsBeforeHuge(tail, k - 1);
    }
  }

  /** A refused write leaves the count and the fields before the first that is too long. */
  lemma PartialRow(row: Row, k: nat)
    requires k < |row| < 0x1_0000_0000 && |row[k]| >= 0x1_0000_0000 && Writable(row[..k])
    ensures !Writable(row) && EncodeRow(row) == EncodeU32(|row|) + EncodeFields(row[..k])
  {
    FieldsBeforeHuge(row, k);
    CountKept(row);
  }

  // ---- Which files are taken for a log ----

  /** The lengths of n fields, one behind the other; the fields themselves may be missing. */
  ghost predicate LengthsBetween(b: string, at: seq<nat>, n: nat) {
    |at| == n + 1 && forall i :: 0 <= i < n ==>
      at[i] + 4 <= |b| && NumberAt(b, at[i]) <= 0x1000000 && at[i + 1] == at[i] + 4 + NumberAt(b, at[i])
  }

  lemma OneMoreLength(b: string, pos: nat, rest: seq<nat>, n: nat) returns (at: seq<nat>)
    requires n > 0 && LengthsBetween(b, rest, n - 1)
    requires pos + 4 <= |b| && NumberAt(b, pos) <= MAX_FIELD_BYTES && rest[0] == pos + 4 + NumberAt(b, pos)
    ensures LengthsBetween(b, at, n) && at[0] == pos
  {
    at := [pos] + rest;
  }

  lemma {:induction false} LengthsAreThere(b: string, pos: nat, n: nat) returns (at: seq<nat>)
    requires LengthsFit(b, pos, n)
    ensures LengthsBetween(b, at, n) && at[0] == pos
    decreases n
  {
    at := [pos];
    if n > 0 {
      DecodeAt(b, pos);
      var rest := LengthsAreThere(b, pos + 4 + NumberAt(b, pos), n - 1);
      at := OneMoreLength(b, pos, rest, n);
    }
  }

  lemma {:induction false} LengthsDoFit(b: string, at: seq<nat>, n: nat)
    requires LengthsBetween(b, at, n)
    ensures LengthsFit(b, at[0], n)
    decreases n
  {
    if n > 0 {
      DecodeAt(b, at[0]);
      LengthsDoFit(b, at[1..], n - 1);
    }
  }

  /** A file is taken for a log if it is shorter than four bytes, or starts with a count and as many lengths. */
  lemma LooksBinaryIff(b: string)
    ensures LooksBinary(b) <==>
      |b| < 4
      || (1 <= NumberAt(b, 0) <= 0x1000 && exists at :: LengthsBetween(b, at, NumberAt(b, 0)) && at[0] == 4)
  {
    if |b| >= 4 {
      DecodeAt(b, 0);
      assert b[0..4] == b[..4];
      if LengthsFit(b, 4, NumberAt(b, 0)) {
        var at := LengthsAreThere(b, 4, NumberAt(b, 0));
      }
      if at :| LengthsBetween(b, at, NumberAt(b, 0)) && at[0] == 4 {
        LengthsDoFit(b, at, NumberAt(b, 0));
      }
    }
  }

  // ---- Logs that were cut off ----

  lemma SameNumber(b: string, c: nat, pos: nat)
    requires pos + 4 <= c <= |b|
    ensures NumberAt(b[..c], pos) == NumberAt(b, pos)
  {
  }

  lemma {:induction false} PositionsRise(b: string, at: seq<nat>, row: Row, i: nat)
    requires FieldsBetween(b, at, row) && i <= |row|
    ensures at[i] <= at[|row|]
    decreases |row| - i
  {
    if i < |row| {
      assert FieldBytes(b, at[i], row[i], at[i + 1]);
      PositionsRise(b, at, row, i + 1);
    }
  }

  lemma FieldOfCut(b: string, c: nat, pos: nat, field: string, next: nat)
    requires next <= c <= |b|
    ensures FieldBytes(b[..c], pos, field, next) <==> FieldBytes(b, pos, field, next)
  {
    if pos + 4 <= next {
      SameNumber(b, c, pos);
    }
  }

  lemma RowOfCut(b: string, c: nat, pos: nat, row: Row, next: nat)
    requires next <= c <= |b|
    ensures RowBytes(b[..c], pos, row, next) <==> RowBytes(b, pos, row, next)
  {
    var cut := b[..c];
    if at :| FieldsBetween(b, at, row) && at[0] == pos + 4 && at[|row|] == next {
      forall i | 0 <= i < |row| ensures FieldBytes(cut, at[i], row[i], at[i + 1]) {
        PositionsRise(b, at, row, i + 1);
        FieldOfCut(b, c, at[i], row[i], at[i + 1]);
      }
      PositionsRise(b, at, row, 0);
      SameNumber(b, c, pos);
      assert FieldsBetween(cut, at, row);
    }
    if at :| FieldsBetween(cut, at, row) && at[0] == pos + 4 && at[|row|] == next {
      forall i | 0 <= i < |row| ensures FieldBytes(b, at[i], row[i], at[i + 1]) {
        PositionsRise(cut, at, row, i + 1);
        FieldOfCut(b, c, at[i], row[i], at[i + 1]);
      }
      PositionsRise(cut, at, row, 0);
      SameNumber(b, c, pos);
      assert FieldsBetween(b, at, row);
    }
  }

  /** A row that lies within the cut is still read; one that does not is the end, or malformed. */
  lemma RowAtCut(b: string, c: nat, pos: nat)
    requires pos <= c <= |b| && RowAt(b, pos).Read?
    ensures var next := RowAt(b, pos).next;
      RowAt(b[..c], pos) == if next <= c then RowAt(b, pos) else if c < pos + 4 then Eof else Malformed
  {
    var cut, r := b[..c], RowAt(b, pos);
    RowAtIff(b, pos);
    RowAtIff(cut, pos);
    if r.next <= c {
      RowOfCut(b, c, pos, r.row, r.next);
    } else if RowAt(cut, pos).Read? {
      var q := RowAt(cut, pos);
      RowOfCut(b, c, pos, q.row, q.next);
      assert false;
    }
  }

  /** The rows that end at or before position c; a row ends where the next one starts, the last one at end. */
  function EndingBy(items: seq<Item>, end: nat, c: nat): seq<Item> {
    if items == [] then []
    else
      var next := if |items| == 1 then end else items[1].ref;
      if next <= c then [items[0]] + EndingBy(items[1..], end, c) else []
  }

  /** Whether position c is at most three bytes behind a place where a row starts, or the end. */
  ghost predicate AtBoundary(items: seq<Item>, end: nat, c: nat) {
    (exists i :: 0 <= i < |items| && items[i].ref <= c < items[i].ref + 4) || c == end
  }

  lemma ScanStart(b: string, pos: nat)
    requires pos <= |b| && ScanFrom(b, pos).items != []
    ensures ScanFrom(b, pos).items[0].ref == pos
  {
  }

  lemma {:induction false} RefsFrom(b: string, pos: nat, k: nat)
    requires pos <= |b| && k < |ScanFrom(b, pos).items|
    ensures pos <= ScanFrom(b, pos).items[k].ref < ScanFrom(b, pos).end
    decreases |b| - pos
  {
    var next := RowAt(b, pos).next;
    if k > 0 {
      RefsFrom(b, next, k - 1);
    }
  }

  /**
    A clean log cut off anywhere: the rows that are whole are still read, and the scan
    ends well exactly when at most three bytes of another row are left.
   */
  lemma {:induction false} CutLogScan(b: string, pos: nat, c: nat)
    requires pos <= c <= |b| && ScanFrom(b, pos).ok && ScanFrom(b, pos).end == |b|
    ensures var all, left := ScanFrom(b, pos).items, ScanFrom(b[..c], pos);
      && left.items == EndingBy(all, |b|, c)
      && (left.ok <==> AtBoundary(all, |b|, c))
    decreases |b| - pos
  {
    var all, cut := ScanFrom(b, pos).items, b[..c];
    match RowAt(b, pos)
    case Eof =>
      assert pos == |b| == c && cut == b;
    case Read(row, next) =>
      var rest := ScanFrom(b, next).items;
      RowAtCut(b, c, pos);
      assert all[0] == Item(pos, row) && all[1..] == rest;
      if rest != [] {
        ScanStart(b, next);
      }
      if next <= c {
        CutLogScan(b, next, c);
        CutBehindFirst(all, |b|, c, next);
      } else {
        forall i | 0 < i < |all| ensures c < all[i].ref {
          assert all[i] == rest[i - 1];
          RefsFrom(b, next, i - 1);
        }
      }
  }

  lemma CutBehindFirst(all: seq<Item>, end: nat, c: nat, next: nat)
    requires all != [] && all[0].ref + 4 <= next <= c
    ensures AtBoundary(all, end, c) <==> AtBoundary(all[1..], end, c)
  {
    if i :| 0 <= i < |all| && all[i].ref <= c < all[i].ref + 4 {
      assert all[1..][i - 1] == all[i];
    }
    if i :| 0 <= i < |all[1..]| && all[1..][i].ref <= c < all[1..][i].ref + 4 {
      assert all[i + 1] == all[1..][i];
    }
  }

  /** The last field of a row ends where the row ends. */
  lemma {:induction false} LengthsOfCut(b: string, at: seq<nat>, row: Row, c: nat)
    requires row != [] && FieldsBetween(b, at, row) && c <= |b|
    ensures LengthsFit(b[..c], at[0], |row|) <==> at[|row| - 1] + 4 <= c
    decreases |row|
  {
    var cut, n := b[..c], |row|;
    assert FieldBytes(b, at[0], row[0], at[1]);
    PositionsRise(b, at[..n], row[..n - 1], 0) by {
      forall i | 0 <= i < n - 1 ensures FieldBytes(b, at[..n][i], row[..n - 1][i], at[..n][i + 1]) {
        assert FieldBytes(b, at[i], row[i], at[i + 1]);
      }
    }
    if at[0] + 4 <= c {
      DecodeAt(cut, at[0]);
      SameNumber(b, c, at[0]);
      if n > 1 {
        forall i | 0 <= i < n - 1 ensures FieldBytes(b, at[1..][i], row[1..][i], at[1..][i + 1]) {
          assert FieldBytes(b, at[i + 1], row[i + 1], at[i + 2]);
        }
        LengthsOfCut(b, at[1..], row[1..], c);
      }
    }
  }

  /**
    A log that was cut off is still taken for a log exactly when fewer than four bytes are
    left, or the length of the last field of its first row. Otherwise the next activation
    takes it for text.
   */
  lemma CutLogLooksBinaryIff(b: string, c: nat) returns (at: seq<nat>)
    requires c <= |b| && RowAt(b, 0).Read?
    ensures var row := RowAt(b, 0).row;
      && FieldsBetween(b, at, row) && at[0] == 4 && at[|row|] == RowAt(b, 0).next
      && (LooksBinary(b[..c]) <==> c < 4 || at[|row| - 1] + 4 <= c)
  {
    RowAtIff(b, 0);
    DecodeAt(b, 0);
    at := FieldsAreRead(b, 4, NumberAt(b, 0));
    LengthsOfCut(b, at, RowAt(b, 0).row, c);
    if c >= 4 {
      assert b[..c][..4] == b[0..4];
    }
  }
}
