/**
  What names, numbers and comparisons mean, stated over the characters themselves: when
  two names agree, which texts are numbers and of what value, and how any two texts
  compare.
 */
module Numbers {
  import opened Entries
  import opened Text
  import opened Sequences

  // ---- Names ----

  /** The same character, or the same letter in the other case. */
  predicate SameLetter(a: char, b: char) {
    || a == b
    || ('A' <= a <= 'Z' && b as int == a as int + 32)
    || ('A' <= b <= 'Z' && a as int == b as int + 32)
  }

  predicate SameLetters(a: string, b: string) {
    |a| == |b| && forall i :: 0 <= i < |a| ==> SameLetter(a[i], b[i])
  }

  /** Two names agree exactly when they have the same letters, in whatever case. */
  lemma {:induction false} SameNameIff(a: string, b: string)
    ensures SameName(a, b) <==> SameLetters(a, b)
  {
    if a != "" && b != "" {
      SameNameIff(a[1..], b[1..]);
      assert SameLetters(a, b) <==> SameLetter(a[0], b[0]) && SameLetters(a[1..], b[1..]) by {
        assert forall i :: 0 < i < |a| ==> a[i] == a[1..][i - 1];
        assert forall i :: 0 < i < |b| ==> b[i] == b[1..][i - 1];
      }
    }
  }

  // ---- Columns ----

  /** p is the first column with the letters of the name. */
  ghost predicate FirstColumn(columns: seq<string>, name: string, p: nat) {
    p < |columns| && SameLetters(columns[p], name) && forall j :: 0 <= j < p ==> !SameLetters(columns[j], name)
  }

  ghost predicate HasColumn(columns: seq<string>, name: string) {
    exists j :: 0 <= j < |columns| && SameLetters(columns[j], name)
  }

  lemma FirstColumnIff(columns: seq<string>, name: string)
    ensures HasColumn(columns, name) <==> ColumnIndex(columns, name) >= 0
    ensures forall p: nat :: FirstColumn(columns, name, p) <==> ColumnIndex(columns, name) == p
  {
    forall j | 0 <= j < |columns| ensures SameName(columns[j], name) <==> SameLetters(columns[j], name) {
      SameNameIff(columns[j], name);
    }
  }

  // ---- Digits ----

  predicate Digit(c: char) { '0' <= c <= '9' }

  predicate Digits(s: string) {
    s != "" && forall i :: 0 <= i < |s| ==> Digit(s[i])
  }

  function PowerOfTen(k: nat): nat {
    if k == 0 then 1 else 10 * PowerOfTen(k - 1)
  }

  /** Each digit times its power of ten. */
  function ValueOf(s: string): int {
    if s == "" then 0 else (s[0] as int - 48) * PowerOfTen(|s| - 1) + ValueOf(s[1..])
  }

  lemma Shifted(d: int, p: int, rest: int, last: int)
    ensures d * (10 * p) + (rest * 10 + last) == (d * p + rest) * 10 + last
  {
  }

  lemma {:induction false} ValueOfLast(s: string, c: char)
    ensures ValueOf(s + [c]) == ValueOf(s) * 10 + (c as int - 48)
  {
    var all := s + [c];
    if s == "" {
      assert all[1..] == "" && PowerOfTen(0) == 1;
    } else {
      assert all[1..] == s[1..] + [c];
      ValueOfLast(s[1..], c);
      Shifted(s[0] as int - 48, PowerOfTen(|s| - 1), ValueOf(s[1..]), c as int - 48);
    }
  }

  lemma {:induction false} DecimalIsValue(s: string)
    requires AllDigits(s)
    ensures Decimal(s) == ValueOf(s)
  {
    if s != "" {
      var n := |s| - 1;
      DecimalIsValue(s[..n]);
      ValueOfLast(s[..n], s[n]);
      InitLast(s);
    }
  }

  // ---- Numbers ----

  /** Tab, newline, vertical tab, form feed, carriage return or space. */
  predicate Blank(c: char) {
    var k := c as int;
    k == 9 || k == 10 || k == 11 || k == 12 || k == 13 || k == 32
  }

  predicate Blanks(s: string) {
    forall i :: 0 <= i < |s| ==> Blank(s[i])
  }

  /** Blanks, at most one sign, and digits up to the last character, of a value below 2^64. */
  ghost predicate NumberParts(text: string, blanks: string, sign: string, digits: string) {
    && text == blanks + (sign + digits) && Blanks(blanks)
    && (sign == "" || sign == "+" || sign == "-")
    && Digits(digits) && ValueOf(digits) < 0x1_0000_0000_0000_0000
  }

  /** The value of such a text; a minus sign negates it modulo 2^64. */
  ghost function SignedValue(sign: string, digits: string): int {
    if sign == "-" && ValueOf(digits) != 0 then 0x1_0000_0000_0000_0000 - ValueOf(digits) else ValueOf(digits)
  }

  /** The text is a number of value v. */
  ghost predicate IsNumber(text: string, v: int) {
    exists blanks, sign, digits :: NumberParts(text, blanks, sign, digits) && v == SignedValue(sign, digits)
  }

  lemma {:induction false} SkipBlanks(blanks: string, rest: string)
    requires Blanks(blanks) && (rest != "" ==> !Blank(rest[0]))
    ensures SkipSpaces(blanks + rest) == rest
  {
    if blanks == "" {
      assert blanks + rest == rest;
    } else {
      assert (blanks + rest)[1..] == blanks[1..] + rest;
      SkipBlanks(blanks[1..], rest);
    }
  }

  lemma {:induction false} SkippedBlanks(text: string) returns (blanks: string)
    ensures text == blanks + SkipSpaces(text) && Blanks(blanks)
  {
    blanks := "";
    if text != "" && IsSpace(text[0]) {
      var more := SkippedBlanks(text[1..]);
      blanks := [text[0]] + more;
    }
  }

  lemma DigitsIff(s: string)
    ensures Digits(s) <==> s != "" && AllDigits(s)
  {
  }

  /** What the reader does with a sign and digits. */
  lemma ParseSigned(text: string, sign: string, digits: string)
    requires SkipSpaces(text) == sign + digits && (sign == "" || sign == "+" || sign == "-")
    requires Digits(digits) && ValueOf(digits) < U64_LIMIT
    ensures ParseU64(text) == Some(SignedValue(sign, digits))
  {
    var s := sign + digits;
    DigitsIff(digits);
    DecimalIsValue(digits);
    if sign == "" {
      assert s == digits && s[0] == digits[0];
    } else {
      SignInFront(sign, digits);
    }
  }

  lemma SignInFront(sign: string, digits: string)
    requires |sign| == 1
    ensures (sign + digits)[0] == sign[0] && (sign + digits)[1..] == digits
  {
  }

  lemma ReadParts(text: string, v: u64) returns (blanks: string, sign: string, digits: string)
    requires ParseU64(text) == Some(v)
    ensures NumberParts(text, blanks, sign, digits) && v == SignedValue(sign, digits)
  {
    blanks := SkippedBlanks(text);
    var s := SkipSpaces(text);
    if s[0] == '+' || s[0] == '-' {
      sign, digits := [s[0]], s[1..];
      assert s == sign + digits;
    } else {
      sign, digits := "", s;
      assert s == sign + digits;
    }
    DigitsIff(digits);
    DecimalIsValue(digits);
    ParseSigned(text, sign, digits);
  }

  /** Exactly the texts made of such parts are read as numbers, with that value. */
  lemma NumberIff(text: string, v: u64)
    ensures ParseU64(text) == Some(v) <==> IsNumber(text, v)
  {
    if ParseU64(text) == Some(v) {
      var blanks, sign, digits := ReadParts(text, v);
    }
    if blanks, sign, digits :| NumberParts(text, blanks, sign, digits) && v == SignedValue(sign, digits) {
      SkipBlanks(blanks, sign + digits);
      ParseSigned(text, sign, digits);
    }
  }

  ghost predicate Numeric(text: string) {
    exists v: u64 :: IsNumber(text, v)
  }

  lemma NumericIff(text: string)
    ensures ParseU64(text).Some? <==> Numeric(text)
  {
    if ParseU64(text).Some? {
      NumberIff(text, ParseU64(text).value);
    }
    if v: u64 :| IsNumber(text, v) {
      NumberIff(text, v);
    }
  }

  /** Some character is no digit, sign or blank, or is no digit and comes behind a digit. */
  ghost predicate OddAt(text: string, i: nat) {
    && i < |text| && !Digit(text[i])
    && ((!Blank(text[i]) && text[i] != '+' && text[i] != '-') || exists j :: 0 <= j < i && Digit(text[j]))
  }

  lemma PartsAreNotOdd(text: string, blanks: string, sign: string, digits: string, i: nat)
    requires NumberParts(text, blanks, sign, digits)
    ensures !OddAt(text, i)
  {
    var k := |blanks| + |sign|;
    assert forall j :: 0 <= j < |blanks| ==> text[j] == blanks[j];
    assert sign != "" ==> text[|blanks|] == sign[0];
    assert forall j :: k <= j < |text| ==> text[j] == digits[j - k];
    assert forall j :: 0 <= j < k ==> !Digit(text[j]);
  }

  /** Such a text is no number. */
  lemma OddIsNoNumber(text: string, i: nat)
    requires OddAt(text, i)
    ensures ParseU64(text) == None
  {
    if ParseU64(text).Some? {
      var blanks, sign, digits := ReadParts(text, ParseU64(text).value);
      PartsAreNotOdd(text, blanks, sign, digits, i);
    }
  }

  /** A printed id has no leading zero, and is the only such text with its value. */
  lemma {:induction false} PrintHasNoLeadingZero(n: nat)
    ensures Digits(Print(n)) && ValueOf(Print(n)) == n
    ensures |Print(n)| == 1 || Print(n)[0] != '0'
  {
    DecimalOfPrint(n);
    DecimalIsValue(Print(n));
    if n >= 10 {
      PrintHasNoLeadingZero(n / 10);
      if |Print(n / 10)| == 1 {
        DecimalOfPrint(n / 10);
        assert Print(n / 10)[..0] == "";
      }
    }
  }

  // ---- Comparison ----

  /** Where the texts first differ, a has nothing or the smaller character. */
  ghost predicate DiffersAt(a: string, b: string, k: nat) {
    k <= |a| && k < |b| && a[..k] == b[..k] && (k < |a| ==> a[k] < b[k])
  }

  ghost predicate Before(a: string, b: string) {
    exists k :: DiffersAt(a, b, k)
  }

  lemma BeforeStep(a: string, b: string)
    requires a != "" && b != ""
    ensures Before(a, b) <==> a[0] < b[0] || (a[0] == b[0] && Before(a[1..], b[1..]))
  {
    if k: nat :| DiffersAt(a, b, k) {
      if k > 0 {
        assert a[..k][0] == b[..k][0];
        assert a[1..][..k - 1] == a[..k][1..] && b[1..][..k - 1] == b[..k][1..];
        assert DiffersAt(a[1..], b[1..], k - 1);
      }
    }
    if a[0] < b[0] {
      assert DiffersAt(a, b, 0);
    }
    if k: nat :| a[0] == b[0] && DiffersAt(a[1..], b[1..], k) {
      assert a[..k + 1] == [a[0]] + a[1..][..k] && b[..k + 1] == [b[0]] + b[1..][..k];
      assert DiffersAt(a, b, k + 1);
    }
  }

  /** Byte order: the first difference decides. */
  lemma {:induction false} CompareIff(a: string, b: string)
    ensures Compare(a, b) < 0 <==> Before(a, b)
    ensures Compare(a, b) > 0 <==> Before(b, a)
    ensures Compare(a, b) == 0 <==> a == b
  {
    CompareZero(a, b);
    if a == "" && b != "" {
      assert DiffersAt(a, b, 0);
    } else if a != "" && b == "" {
      assert DiffersAt(b, a, 0);
    } else if a != "" {
      BeforeStep(a, b);
      BeforeStep(b, a);
      CompareIff(a[1..], b[1..]);
    }
  }

  predicate NumbersMeet(a: int, op: Op, b: int) {
    match op
    case Equal => a == b
    case Greater => a > b
    case GreaterEqual => a >= b
    case Less => a < b
    case LessEqual => a <= b
  }

  ghost predicate TextsMeet(a: string, op: Op, b: string) {
    match op
    case Equal => a == b
    case Greater => Before(b, a)
    case GreaterEqual => a == b || Before(b, a)
    case Less => Before(a, b)
    case LessEqual => a == b || Before(a, b)
  }

  /** Two numbers compare as numbers; otherwise the texts compare as texts. */
  ghost predicate Meets(lhs: string, op: Op, rhs: string) {
    if Numeric(lhs) && Numeric(rhs) then
      exists a: u64, b: u64 :: IsNumber(lhs, a) && IsNumber(rhs, b) && NumbersMeet(a, op, b)
    else TextsMeet(lhs, op, rhs)
  }

  lemma NumbersMeetIff(lhs: string, rhs: string, op: Op, a: u64, b: u64)
    requires IsNumber(lhs, a) && IsNumber(rhs, b)
    ensures ParseU64(lhs) == Some(a) && ParseU64(rhs) == Some(b)
    ensures Meets(lhs, op, rhs) <==> NumbersMeet(a, op, b)
  {
    NumberIff(lhs, a);
    NumberIff(rhs, b);
    if x: u64, y: u64 :| IsNumber(lhs, x) && IsNumber(rhs, y) && NumbersMeet(x, op, y) {
      NumberIff(lhs, x);
      NumberIff(rhs, y);
    }
  }

  /** The comparison in a WHERE clause. */
  lemma ValueMatchesIff(lhs: string, rhs: string, op: Op)
    ensures ValueMatches(lhs, rhs, op) <==> Meets(lhs, op, rhs)
  {
    NumericIff(lhs);
    NumericIff(rhs);
    if Numeric(lhs) && Numeric(rhs) {
      var a: u64, b: u64 :| IsNumber(lhs, a) && IsNumber(rhs, b);
      NumbersMeetIff(lhs, rhs, op, a, b);
    } else {
      CompareIff(lhs, rhs);
    }
  }

  /** A text with an odd character equals only itself, on either side of the comparison. */
  lemma OddEqualsOnlyItself(text: string, other: string, i: nat)
    requires OddAt(text, i)
    ensures ValueMatches(text, other, Equal) <==> text == other
    ensures ValueMatches(other, text, Equal) <==> text == other
  {
    OddIsNoNumber(text, i);
    EqualMatch(text, other);
    EqualMatch(other, text);
  }
}
