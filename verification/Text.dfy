/**
  C strings as sequences of characters, one per byte: case-insensitive names,
  byte order, and the numbers that strtoull accepts.
 */
module Text {
  import opened Entries

  datatype Option<+T> = None | Some(value: T)

  // ---- Names ----

  function Lower(c: char): char {
    if 'A' <= c <= 'Z' then (c as int + 32) as char else c
  }

  /** sql_stricmp reduced to its only use, the test for zero. */
  predicate SameName(a: string, b: string) {
    if a == "" || b == "" then a == b
    else Lower(a[0]) == Lower(b[0]) && SameName(a[1..], b[1..])
  }

  function LowerAll(s: string): string {
    seq(|s|, i requires 0 <= i < |s| => Lower(s[i]))
  }

  /** Two names are the same exactly when they agree after lowering every letter. */
  lemma {:induction false} SameNameIffLowered(a: string, b: string)
    ensures SameName(a, b) <==> LowerAll(a) == LowerAll(b)
  {
    if a != "" && b != "" {
      SameNameIffLowered(a[1..], b[1..]);
      var l, r := LowerAll(a), LowerAll(b);
      assert l == [Lower(a[0])] + LowerAll(a[1..]) && r == [Lower(b[0])] + LowerAll(b[1..]);
      assert l[1..] == LowerAll(a[1..]) && r[1..] == LowerAll(b[1..]);
      assert l == r ==> l[0] == r[0] && l[1..] == r[1..];
    } else {
      assert |LowerAll(a)| == |a| && |LowerAll(b)| == |b|;
    }
  }

  lemma {:induction false} SameNameLength(a: string, b: string)
    requires SameName(a, b)
    ensures |a| == |b|
  {
    if a != "" {
      SameNameLength(a[1..], b[1..]);
    }
  }

  /** The first column with the given name, or -1. */
  function ColumnIndex(columns: seq<string>, name: string): (i: int)
    ensures -1 <= i < |columns|
    ensures i >= 0 ==> SameName(columns[i], name) && forall j :: 0 <= j < i ==> !SameName(columns[j], name)
    ensures i < 0 ==> forall j :: 0 <= j < |columns| ==> !SameName(columns[j], name)
  {
    ColumnIndexFrom(columns, name, 0)
  }

  function ColumnIndexFrom(columns: seq<string>, name: string, from: nat): (i: int)
    requires from <= |columns|
    ensures i == -1 || from <= i < |columns|
    ensures i >= 0 ==> SameName(columns[i], name) && forall j :: from <= j < i ==> !SameName(columns[j], name)
    ensures i < 0 ==> forall j :: from <= j < |columns| ==> !SameName(columns[j], name)
    decreases |columns| - from
  {
    if from == |columns| then -1
    else if SameName(columns[from], name) then from
    else ColumnIndexFrom(columns, name, from + 1)
  }

  method FindColumnIndex(columns: seq<string>, name: string) returns (index: int)
    ensures index == ColumnIndex(columns, name)
  {
    var i := 0;
    while i < |columns|
      invariant i <= |columns|
      invariant forall j :: 0 <= j < i ==> !SameName(columns[j], name)
    {
      if SameName(columns[i], name) {
        return i;
      }
      i := i + 1;
    }
    index := -1;
  }

  lemma SameNameColumns(columns: seq<string>, a: string, b: string)
    requires SameName(a, b)
    ensures ColumnIndex(columns, a) == ColumnIndex(columns, b)
  {
    forall c: string ensures SameName(c, a) <==> SameName(c, b) {
      SameNameIffLowered(a, b);
      SameNameIffLowered(c, a);
      SameNameIffLowered(c, b);
    }
  }

  // ---- Byte order ----

  /** The sign of strcmp. */
  function Compare(a: string, b: string): int {
    if a == "" then (if b == "" then 0 else -1)
    else if b == "" then 1
    else if a[0] < b[0] then -1
    else if a[0] > b[0] then 1
    else Compare(a[1..], b[1..])
  }

  lemma {:induction false} CompareZero(a: string, b: string)
    ensures Compare(a, b) == 0 <==> a == b
  {
    if a != "" && b != "" && a[0] == b[0] {
      CompareZero(a[1..], b[1..]);
      assert a == [a[0]] + a[1..] && b == [b[0]] + b[1..];
    }
  }

  // ---- Numbers ----

  predicate IsDigit(c: char) { '0' <= c <= '9' }

  predicate IsSpace(c: char) { c == ' ' || '\t' <= c <= '\r' }

  predicate AllDigits(s: string) {
    forall i :: 0 <= i < |s| ==> IsDigit(s[i])
  }

  /** The value of a run of digits. */
  function Decimal(s: string): nat
    requires AllDigits(s)
  {
    if s == "" then 0 else Decimal(s[..|s| - 1]) * 10 + (s[|s| - 1] as int - '0' as int)
  }

  function SkipSpaces(s: string): string {
    if s != "" && IsSpace(s[0]) then SkipSpaces(s[1..]) else s
  }

  /**
    strtoull over the whole string, base 10: leading spaces, one optional sign, at
    least one digit, nothing after the digits, no overflow. A minus sign negates
    modulo 2^64 and is not an error.
   */
  function ParseU64(text: string): Option<u64> {
    var s := SkipSpaces(text);
    var signed := s != "" && (s[0] == '+' || s[0] == '-');
    var digits := if signed then s[1..] else s;
    if digits == "" || !AllDigits(digits) || Decimal(digits) >= U64_LIMIT then None
    else if signed && s[0] == '-' && Decimal(digits) != 0 then Some(U64_LIMIT - Decimal(digits))
    else Some(Decimal(digits))
  }

  /** printf of an id. */
  function Print(n: nat): string {
    var last := [('0' as int + n % 10) as char];
    if n < 10 then last else Print(n / 10) + last
  }

  lemma {:induction false} DecimalOfPrint(n: nat)
    ensures Print(n) != "" && AllDigits(Print(n)) && Decimal(Print(n)) == n
  {
    var s := Print(n);
    if n < 10 {
      assert s[..0] == "";
    } else {
      DecimalOfPrint(n / 10);
      assert s[..|s| - 1] == Print(n / 10);
    }
  }

  /** A printed id is read back as itself. */
  lemma ParseOfPrint(n: u64)
    ensures ParseU64(Print(n)) == Some(n)
  {
    DecimalOfPrint(n);
    assert IsDigit(Print(n)[0]);
  }

  // ---- WHERE ----

  datatype Op = Equal | Greater | GreaterEqual | Less | LessEqual

  predicate CompareWith(cmp: int, op: Op) {
    match op
    case Equal => cmp == 0
    case Greater => cmp > 0
    case GreaterEqual => cmp >= 0
    case Less => cmp < 0
    case LessEqual => cmp <= 0
  }

  /** Numeric comparison when both sides are numbers, byte order otherwise. */
  predicate ValueMatches(lhs: string, rhs: string, op: Op) {
    var l, r := ParseU64(lhs), ParseU64(rhs);
    if l.Some? && r.Some? then
      CompareWith(if l.value < r.value then -1 else if l.value > r.value then 1 else 0, op)
    else
      CompareWith(Compare(lhs, rhs), op)
  }

  /** The comparison an operator stands for, on numbers. */
  predicate Satisfies(a: u64, op: Op, b: u64) {
    match op
    case Equal => a == b
    case Greater => a > b
    case GreaterEqual => a >= b
    case Less => a < b
    case LessEqual => a <= b
  }

  lemma NumericMatch(lhs: string, rhs: string, op: Op)
    requires ParseU64(lhs).Some? && ParseU64(rhs).Some?
    ensures ValueMatches(lhs, rhs, op) <==> Satisfies(ParseU64(lhs).value, op, ParseU64(rhs).value)
  {
  }

  /** Equality in a WHERE clause: same number, or same text where one side is no number. */
  lemma EqualMatch(lhs: string, rhs: string)
    ensures ValueMatches(lhs, rhs, Equal) <==> lhs == rhs || (ParseU64(lhs).Some? && ParseU64(lhs) == ParseU64(rhs))
  {
    CompareZero(lhs, rhs);
  }
}
