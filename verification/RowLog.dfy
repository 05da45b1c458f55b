/**
  The binary row log: a field count, then length-prefixed fields, one row after
  another. A row is addressed by its byte offset.
 */
module RowLog {
  import opened Text
  import opened Sequences

  type Row = seq<string>

  const U32_LIMIT: nat := 0x1_0000_0000
  const MAX_FIELDS: nat := 4096
  const MAX_FIELD_BYTES: nat := 16 * 1024 * 1024

  // ---- 32-bit numbers, least significant byte first ----

  function LowBytes(n: nat, k: nat): (s: string)
    ensures |s| == k
    decreases k
  {
    if k == 0 then "" else [(n % 256) as char] + LowBytes(n / 256, k - 1)
  }

  function FromBytes(s: string): nat {
    if s == "" then 0 else s[0] as nat + 256 * FromBytes(s[1..])
  }

  function EncodeU32(n: nat): (s: string)
    ensures |s| == 4
  {
    LowBytes(n, 4)
  }

  function DecodeU32(s: string): nat {
    FromBytes(s)
  }

  lemma {:induction false} BytesRoundTrip(n: nat, k: nat, limit: nat)
    requires n < limit && limit == Pow256(k)
    ensures FromBytes(LowBytes(n, k)) == n
    decreases k
  {
    if k > 0 {
      BytesRoundTrip(n / 256, k - 1, Pow256(k - 1));
    }
  }

  function Pow256(k: nat): nat {
    if k == 0 then 1 else 256 * Pow256(k - 1)
  }

  lemma U32RoundTrip(n: nat)
    requires n < U32_LIMIT
    ensures DecodeU32(EncodeU32(n)) == n
  {
    assert Pow256(4) == U32_LIMIT;
    BytesRoundTrip(n, 4, U32_LIMIT);
  }

  // ---- Writing ----

  /** The fields as written; a field length that does not fit 32 bits stops the write. */
  function EncodeFields(row: Row): string {
    if row == [] || |row[0]| >= U32_LIMIT then ""
    else EncodeU32(|row[0]|) + row[0] + EncodeFields(row[1..])
  }

  /** The bytes of one row. The field count is cut down to 32 bits. */
  function EncodeRow(row: Row): string {
    EncodeU32(|row| % U32_LIMIT) + EncodeFields(row)
  }

  predicate Writable(row: Row) {
    forall i :: 0 <= i < |row| ==> |row[i]| < U32_LIMIT
  }

  /** Appends one row and reports its offset; fails at the first field that is too long, keeping what was written. */
  method AppendRow(file: string, row: Row) returns (ok: bool, file': string, ref: nat)
    ensures ok <==> Writable(row)
    ensures file' == file + EncodeRow(row) && ref == |file|
  {
    ref := |file|;
    file' := file + EncodeU32(|row| % U32_LIMIT);
    AppendAssoc(file, EncodeU32(|row| % U32_LIMIT), EncodeFields(row));
    var i := 0;
    while i < |row| && |row[i]| < U32_LIMIT
      invariant i <= |row|
      invariant forall j :: 0 <= j < i ==> |row[j]| < U32_LIMIT
      invariant file' + EncodeFields(row[i..]) == file + EncodeRow(row)
    {
      assert row[i..][1..] == row[i + 1..];
      AppendAssoc(file', EncodeU32(|row[i]|) + row[i], EncodeFields(row[i + 1..]));
      AppendAssoc(file', EncodeU32(|row[i]|), row[i]);
      file' := file' + EncodeU32(|row[i]|) + row[i];
      i := i + 1;
    }
    assert EncodeFields(row[i..]) == "";
    ok := i == |row|;
  }

  // ---- Reading ----

  datatype ReadResult = Eof | Malformed | Read(row: Row, next: nat)

  /** A C string ends at its first zero byte. */
  function UpToNul(s: string): string {
    if s == "" || s[0] == '\0' then "" else [s[0]] + UpToNul(s[1..])
  }

  predicate NoNul(s: string) {
    forall i :: 0 <= i < |s| ==> s[i] != '\0'
  }

  /** One length-prefixed field; a missing length counts as malformed. */
  function FieldAt(b: string, pos: nat): (r: Option<(string, nat)>)
    requires pos <= |b|
    ensures r.Some? ==> pos + 4 <= r.value.1 <= |b| && |r.value.0| <= MAX_FIELD_BYTES
  {
    if |b| - pos < 4 then None
    else
      var length := DecodeU32(b[pos..pos + 4]);
      if length > MAX_FIELD_BYTES || length > |b| - pos - 4 then None
      else
        UpToNulShorter(b[pos + 4..pos + 4 + length]);
        Some((UpToNul(b[pos + 4..pos + 4 + length]), pos + 4 + length))
  }

  /** n fields from position pos on. */
  function FieldsAt(b: string, pos: nat, n: nat): (r: Option<(Row, nat)>)
    requires pos <= |b|
    ensures r.Some? ==> |r.value.0| == n && pos + 4 * n <= r.value.1 <= |b|
    decreases n
  {
    if n == 0 then Some(([], pos))
    else
      var field := FieldAt(b, pos);
      if field.None? then None
      else
        var rest := FieldsAt(b, field.value.1, n - 1);
        if rest.None? then None else Some(([field.value.0] + rest.value.0, rest.value.1))
  }

  lemma {:induction false} UpToNulShorter(s: string)
    ensures |UpToNul(s)| <= |s|
    ensures NoNul(s) ==> UpToNul(s) == s
  {
    if s != "" && s[0] != '\0' {
      UpToNulShorter(s[1..]);
      assert NoNul(s) ==> NoNul(s[1..]);
      assert s == [s[0]] + s[1..];
    }
  }

  /** The row at an offset. Fewer than four bytes before the count read as the end of the file. */
  function RowAt(b: string, pos: nat): (r: ReadResult)
    requires pos <= |b|
    ensures r.Read? ==> pos + 4 <= r.next <= |b| && 1 <= |r.row| <= MAX_FIELDS
  {
    if |b| - pos < 4 then Eof
    else
      var count := DecodeU32(b[pos..pos + 4]);
      if count == 0 || count > MAX_FIELDS then Malformed
      else
        var fields := FieldsAt(b, pos + 4, count);
        if fields.None? then Malformed else Read(fields.value.0, fields.value.1)
  }

  ghost function Prepend(row: Row, r: Option<(Row, nat)>): Option<(Row, nat)> {
    if r.None? then None else Some((row + r.value.0, r.value.1))
  }

  /** An open file: its bytes and the read position, which every read moves on. */
  class Reader {
    const bytes: string
    var pos: nat

    constructor (bytes: string, pos: nat)
      ensures this.bytes == bytes && this.pos == pos
    {
      this.bytes, this.pos := bytes, pos;
    }

    method ReadField() returns (field: Option<string>)
      requires pos <= |bytes|
      modifies this
      ensures pos <= |bytes|
      ensures match FieldAt(bytes, old(pos))
              case None => field == None
              case Some(v) => field == Some(v.0) && pos == v.1
    {
      if |bytes| - pos < 4 {
        return None;
      }
      var length := DecodeU32(bytes[pos..pos + 4]);
      pos := pos + 4;
      if length > MAX_FIELD_BYTES || |bytes| - pos < length {
        return None;
      }
      field := Some(UpToNul(bytes[pos..pos + length]));
      pos := pos + length;
    }

    /** One row; on success the position moves past it. */
    method ReadRow() returns (r: ReadResult)
      requires pos <= |bytes|
      modifies this
      ensures r == RowAt(bytes, old(pos))
      ensures r.Read? ==> pos == r.next
      ensures pos <= |bytes|
    {
      if |bytes| - pos < 4 {
        return Eof;
      }
      var count := DecodeU32(bytes[pos..pos + 4]);
      pos := pos + 4;
      if count == 0 || count > MAX_FIELDS {
        return Malformed;
      }
      var row: Row := [];
      PrependNothing(FieldsAt(bytes, pos, count));
      ghost var start := pos;
      var i := 0;
      while i < count
        invariant i <= count && start <= pos <= |bytes|
        invariant FieldsAt(bytes, start, count) == Prepend(row, FieldsAt(bytes, pos, count - i))
      {
        var field := ReadField();
        if field.None? {
          return Malformed;
        }
        PrependStep(row, field.value, FieldsAt(bytes, pos, count - i - 1));
        row := row + [field.value];
        i := i + 1;
      }
      assert row + [] == row;
      r := Read(row, pos);
    }
  }

  lemma PrependStep(row: Row, field: string, r: Option<(Row, nat)>)
    ensures Prepend(row + [field], r) == Prepend(row, if r.None? then None else Some(([field] + r.value.0, r.value.1)))
  {
    if r.Some? {
      assert (row + [field]) + r.value.0 == row + ([field] + r.value.0);
    }
  }

  lemma PrependNothing(r: Option<(Row, nat)>)
    ensures Prepend([], r) == r
  {
    if r.Some? {
      assert [] + r.value.0 == r.value.0;
    }
  }
}
