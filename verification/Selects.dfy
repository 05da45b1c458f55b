/**
  Every SELECT path against one reference: a plain filter over the rows of the file.
 */
module Selects {
  import opened Entries
  import opened Text
  import opened Sequences
  import opened RowLog
  import opened LogProofs
  import opened Syntax
  import opened EngineSpec
  import opened Rebuild
  import opened Runs

  // ---- The reference ----

  predicate Matches(row: Row, w: Where, wi: int) {
    w.NoWhere? || (0 <= wi < |row| && ValueMatches(row[wi], w.value, w.op))
  }

  function Hit(row: Row, w: Where, wi: int): seq<Row> {
    if Matches(row, w, wi) then [row] else []
  }

  /** The rows that match, in file order. */
  function Filter(items: seq<Item>, w: Where, wi: int): seq<Row> {
    if items == [] then [] else Hit(items[0].row, w, wi) + Filter(items[1..], w, wi)
  }

  lemma {:induction false} FilterConcat(a: seq<Item>, b: seq<Item>, w: Where, wi: int)
    ensures Filter(a + b, w, wi) == Filter(a, w, wi) + Filter(b, w, wi)
  {
    if a == [] {
      assert a + b == b;
    } else {
      assert (a + b)[1..] == a[1..] + b;
      FilterConcat(a[1..], b, w, wi);
      AppendAssoc(Hit(a[0].row, w, wi), Filter(a[1..], w, wi), Filter(b, w, wi));
    }
  }

  lemma FilterOne(item: Item, w: Where, wi: int)
    ensures Filter([item], w, wi) == Hit(item.row, w, wi)
  {
    assert [item][1..] == [];
  }

  // ---- The scan ----

  function UpTo(rows: seq<Row>, stop: bool): seq<Row> {
    if stop && rows != [] then rows[..1] else rows
  }

  /** A row that the scan can test: it has the column the WHERE clause names. */
  predicate Testable(row: Row, w: Where, wi: int) {
    w.Where? ==> 0 <= wi < |row|
  }

  lemma LinearStep(b: string, pos: nat, row: Row, next: nat, w: Where, wi: int, stop: bool, rest: seq<Row>)
    requires pos <= |b| && RowAt(b, pos) == Read(row, next) && Testable(row, w, wi)
    requires LinearFrom(b, next, w, wi, stop) == Some(UpTo(rest, stop))
    ensures LinearFrom(b, pos, w, wi, stop) == Some(UpTo(Hit(row, w, wi) + rest, stop))
  {
    if !Matches(row, w, wi) {
      assert [] + rest == rest;
    }
  }

  /** The scan yields the filtered rows, cut after the first one when it stops there. */
  lemma {:induction false} LinearIsFilter(b: string, pos: nat, items: seq<Item>, w: Where, wi: int, stop: bool)
    requires pos <= |b| && ScanFrom(b, pos).ok && items == ScanFrom(b, pos).items && (w.Where? ==> wi >= 0)
    requires forall i :: 0 <= i < |items| ==> Testable(items[i].row, w, wi)
    ensures LinearFrom(b, pos, w, wi, stop) == Some(UpTo(Filter(items, w, wi), stop))
    decreases |b| - pos
  {
    match RowAt(b, pos)
    case Eof =>
    case Read(row, next) =>
      assert items[0] == Item(pos, row) && items[1..] == ScanFrom(b, next).items;
      LinearIsFilter(b, next, items[1..], w, wi, stop);
      LinearStep(b, pos, row, next, w, wi, stop, Filter(items[1..], w, wi));
  }

  // ---- The entries the index selects ----

  lemma {:induction false} MatchingConcat(a: seq<Entry>, b: seq<Entry>, op: Op, id: u64)
    ensures Matching(a + b, op, id) == Matching(a, op, id) + Matching(b, op, id)
  {
    if a == [] {
      assert a + b == b;
    } else {
      assert (a + b)[1..] == a[1..] + b;
      MatchingConcat(a[1..], b, op, id);
      AppendAssoc(if Satisfies(a[0].key, op, id) then [a[0]] else [], Matching(a[1..], op, id), Matching(b, op, id));
    }
  }

  lemma {:induction false} MatchingUniform(a: seq<Entry>, op: Op, id: u64, yes: bool)
    requires forall i :: 0 <= i < |a| ==> (Satisfies(a[i].key, op, id) <==> yes)
    ensures Matching(a, op, id) == if yes then a else []
  {
    if a != [] {
      MatchingUniform(a[1..], op, id, yes);
    }
  }

  /** An ordered index falls into the entries below, at and above an id. */
  lemma Stretches(a: seq<Entry>, id: u64) returns (p: nat, q: nat)
    requires Ascending(a)
    ensures p == Rank(a, id) <= q == Rank(a, id + 1) <= |a|
    ensures forall i :: 0 <= i < p ==> a[i].key < id
    ensures forall i :: p <= i < q ==> a[i].key == id
    ensures forall i :: q <= i < |a| ==> a[i].key > id
  {
    p, q := Rank(a, id), Rank(a, id + 1);
    forall i | 0 <= i < p ensures a[i].key < id {
      assert a[i] == a[..p][i];
    }
    forall i | 0 <= i < q ensures a[i].key <= id {
      assert a[i] == a[..q][i];
    }
  }

  lemma MatchingThree(a: seq<Entry>, p: nat, q: nat, op: Op, id: u64)
    requires p <= q <= |a|
    ensures Matching(a, op, id) == Matching(a[0..p], op, id) + Matching(a[p..q], op, id) + Matching(a[q..|a|], op, id)
  {
    MatchingConcat(a[0..p] + a[p..q], a[q..|a|], op, id);
    MatchingConcat(a[0..p], a[p..q], op, id);
    assert a == a[0..p] + a[p..q] + a[q..|a|];
  }

  ghost function StretchFor(a: seq<Entry>, p: nat, q: nat, op: Op): seq<Entry>
    requires p <= q <= |a|
  {
    match op
    case Equal => a[p..q]
    case Greater => a[q..]
    case GreaterEqual => a[p..]
    case Less => a[..p]
    case LessEqual => a[..q]
  }

  lemma StretchParts(a: seq<Entry>, p: nat, q: nat, op: Op)
    requires p <= q <= |a|
    ensures StretchFor(a, p, q, op)
         == (if CompareWith(-1, op) then a[0..p] else []) + (if CompareWith(0, op) then a[p..q] else [])
            + (if CompareWith(1, op) then a[q..|a|] else [])
  {
  }

  function Sign(key: u64, id: u64): int {
    if key < id then -1 else if key > id then 1 else 0
  }

  lemma MatchingPart(a: seq<Entry>, from: nat, to: nat, op: Op, id: u64, sign: int)
    requires from <= to <= |a| && forall i :: from <= i < to ==> Sign(a[i].key, id) == sign
    ensures Matching(a[from..to], op, id) == if CompareWith(sign, op) then a[from..to] else []
  {
    MatchingUniform(a[from..to], op, id, CompareWith(sign, op));
  }

  /** On an ordered index each comparison selects one contiguous stretch. */
  lemma MatchingIsStretch(a: seq<Entry>, op: Op, id: u64)
    requires Ascending(a)
    ensures Rank(a, id) <= Rank(a, id + 1)
    ensures Matching(a, op, id) == StretchFor(a, Rank(a, id), Rank(a, id + 1), op)
  {
    var p, q := Stretches(a, id);
    MatchingThree(a, p, q, op, id);
    MatchingPart(a, 0, p, op, id, -1);
    MatchingPart(a, p, q, op, id, 0);
    MatchingPart(a, q, |a|, op, id, 1);
    StretchParts(a, p, q, op);
  }

  // ---- The rows they point at ----

  /** The rows found in a file through index entries. */
  function Found(b: string, es: seq<Entry>, op: Op, id: u64, width: nat): Option<seq<Row>> {
    RowsByRefs(b, Matching(es, op, id), width)
  }

  function Both(x: Option<seq<Row>>, y: Option<seq<Row>>): Option<seq<Row>> {
    if x.Some? && y.Some? then Some(x.value + y.value) else None
  }

  lemma {:induction false} RowsByRefsConcat(b: string, x: seq<Entry>, y: seq<Entry>, width: nat)
    ensures RowsByRefs(b, x + y, width) == Both(RowsByRefs(b, x, width), RowsByRefs(b, y, width))
  {
    var rx, ry := RowsByRefs(b, x, width), RowsByRefs(b, y, width);
    if x == [] {
      assert x + y == y;
      assert ry.Some? ==> [] + ry.value == ry.value;
    } else {
      assert (x + y)[1..] == x[1..] + y;
      RowsByRefsConcat(b, x[1..], y, width);
      var row, rest := RowByRef(b, x[0].ref, width), RowsByRefs(b, x[1..], width);
      if row.Some? && rest.Some? && ry.Some? {
        AppendAssoc([row.value], rest.value, ry.value);
      }
    }
  }

  lemma FoundConcat(b: string, x: seq<Entry>, y: seq<Entry>, op: Op, id: u64, width: nat)
    ensures Found(b, x + y, op, id, width) == Both(Found(b, x, op, id, width), Found(b, y, op, id, width))
  {
    MatchingConcat(x, y, op, id);
    RowsByRefsConcat(b, Matching(x, op, id), Matching(y, op, id), width);
  }

  /** A row can be read at its offset, has the table's width, and a numeric id. */
  ghost predicate Readable(b: string, item: Item, width: nat, idc: int) {
    RowByRef(b, item.ref, width) == Some(item.row) && |item.row| == width && HasId(item.row, idc)
  }

  lemma GoodIsReadable(t: Table, b: string)
    requires GoodTable(t) && GoodFile(t, b)
    ensures forall i :: 0 <= i < |ItemsOf(b)| ==> Readable(b, ItemsOf(b)[i], |t.columns|, IdColumn(t))
  {
    var items := ItemsOf(b);
    GoodItemsIffPairwise(items, IdColumn(t), StudentColumn(t));
    forall i | 0 <= i < |items| ensures Readable(b, items[i], |t.columns|, IdColumn(t)) {
      ScannedRowsCanBeRead(b, 0, i);
    }
  }

  /** One entry selects its row exactly when the filter does. */
  lemma FoundOne(b: string, item: Item, width: nat, w: Where, idc: int, id: u64)
    requires Readable(b, item, width, idc) && w.Where? && ParseU64(w.value) == Some(id)
    ensures Found(b, [EntryOf(item, idc)], w.op, id, width) == Some(Hit(item.row, w, idc))
  {
    var e := EntryOf(item, idc);
    NumericMatch(item.row[idc], w.value, w.op);
    assert [e][1..] == [];
    assert RowsByRefs(b, [], width) == Some([]) && [item.row] + [] == [item.row];
    assert Matching([e], w.op, id) == if Satisfies(e.key, w.op, id) then [e] else [];
  }

  lemma AnyOrder<T>(x: seq<T>, y: seq<T>, z: seq<T>)
    ensures multiset((x + y) + z) == multiset(x + z) + multiset(y)
  {
  }

  /** A new entry adds the row it points at, at its place in id order. */
  lemma FoundInserted(b: string, s: seq<Entry>, k: u64, r: RowRef, op: Op, id: u64, width: nat, rows: seq<Row>,
                      hit: seq<Row>)
    returns (all: seq<Row>)
    requires Found(b, s, op, id, width) == Some(rows) && Found(b, [Entry(k, r)], op, id, width) == Some(hit)
    ensures Found(b, Inserted(s, k, r), op, id, width) == Some(all)
    ensures multiset(all) == multiset(rows) + multiset(hit)
    ensures Rank(s, k) == |s| ==> all == rows + hit
  {
    var p := Rank(s, k);
    var x, y := s[..p], s[p..];
    assert s == x + y;
    FoundConcat(b, x, y, op, id, width);
    FoundConcat(b, x, [Entry(k, r)], op, id, width);
    FoundConcat(b, x + [Entry(k, r)], y, op, id, width);
    var fx, fy := Found(b, x, op, id, width).value, Found(b, y, op, id, width).value;
    all := (fx + hit) + fy;
    AnyOrder(fx, hit, fy);
    if p == |s| {
      assert fy == [];
    }
  }

  /** Later rows have larger ids. */
  ghost predicate InIdOrder(items: seq<Item>, idc: int) {
    forall i, j :: 0 <= i < j < |items| ==> IdOf(items[i].row, idc) < IdOf(items[j].row, idc)
  }

  lemma LastIsLargest(items: seq<Item>, idc: int)
    requires items != [] && InIdOrder(items, idc)
    ensures var n := |items| - 1;
      InIdOrder(items[..n], idc) && AllBelow(IndexOf(items[..n], idc), IdOf(items[n].row, idc))
  {
    var n := |items| - 1;
    var s := items[..n];
    assert forall i :: 0 <= i < n ==> s[i] == items[i];
    var index := IndexOf(s, idc);
    forall i | 0 <= i < |index| ensures index[i].key < IdOf(items[n].row, idc) {
      IndexIsRows(s, idc, index[i]);
    }
  }

  lemma AllBelowRank(s: seq<Entry>, k: u64)
    requires AllBelow(s, k)
    ensures Rank(s, k) == |s|
  {
    assert s[..|s|] == s;
    RankIs(s, k, |s|);
  }

  /**
    The index path returns the filtered rows, each as often as the filter does, and in
    the filter's order when the file is in id order.
   */
  lemma {:induction false} IndexPathIsFilter(b: string, items: seq<Item>, width: nat, w: Where, idc: int, id: u64)
    returns (rows: seq<Row>)
    requires w.Where? && ParseU64(w.value) == Some(id)
    requires forall i :: 0 <= i < |items| ==> Readable(b, items[i], width, idc)
    ensures Found(b, IndexOf(items, idc), w.op, id, width) == Some(rows)
    ensures multiset(rows) == multiset(Filter(items, w, idc))
    ensures InIdOrder(items, idc) ==> rows == Filter(items, w, idc)
  {
    rows := [];
    if items != [] {
      var n := |items| - 1;
      var init, last := items[..n], items[n];
      var before := IndexPathIsFilter(b, init, width, w, idc, id);
      FoundOne(b, last, width, w, idc, id);
      var hit, k := Hit(last.row, w, idc), IdOf(last.row, idc);
      rows := FoundInserted(b, IndexOf(init, idc), k, last.ref, w.op, id, width, before, hit);
      if InIdOrder(items, idc) {
        LastIsLargest(items, idc);
        AllBelowRank(IndexOf(init, idc), k);
      }
      InitLast(items);
      FilterConcat(init, [last], w, idc);
      FilterOne(last, w, idc);
    }
  }

  // ---- The columns ----

  ghost predicate AllOfWidth(rows: seq<Row>, width: nat) {
    forall i :: 0 <= i < |rows| ==> |rows[i]| == width
  }

  /** Projection keeps the rows and their order, and picks the listed fields of each. */
  lemma {:induction false} ProjectAllMeaning(rows: seq<Row>, ps: seq<int>, width: nat) returns (out: seq<Row>)
    requires AllOfWidth(rows, width) && InRange(ps, width)
    ensures ProjectAll(rows, ps) == Some(out) && |out| == |rows|
    ensures forall i :: 0 <= i < |rows| ==> |out[i]| == |ps|
    ensures forall i, k :: 0 <= i < |rows| && 0 <= k < |ps| ==> out[i][k] == rows[i][ps[k]]
  {
    out := [];
    if rows != [] {
      var rest := ProjectAllMeaning(rows[1..], ps, width);
      out := [Project(rows[0], ps)] + rest;
    }
  }

  lemma {:induction false} ProjectAllConcat(x: seq<Row>, y: seq<Row>, ps: seq<int>)
    ensures ProjectAll(x + y, ps) == Both(ProjectAll(x, ps), ProjectAll(y, ps))
  {
    var py := ProjectAll(y, ps);
    if x == [] {
      assert x + y == y;
      assert py.Some? ==> [] + py.value == py.value;
    } else {
      assert (x + y)[1..] == x[1..] + y;
      ProjectAllConcat(x[1..], y, ps);
      var rest := ProjectAll(x[1..], ps);
      if InRange(ps, |x[0]|) && rest.Some? && py.Some? {
        AppendAssoc([Project(x[0], ps)], rest.value, py.value);
      }
    }
  }

  lemma SameRest<T>(r: T, rest: seq<T>, a: seq<T>, c: seq<T>)
    requires multiset([r] + rest) == multiset((a + [r]) + c)
    ensures multiset(rest) == multiset(a + c)
  {
    AnyOrder(a, [r], c);
    assert multiset([r] + rest) == multiset([r]) + multiset(rest);
    assert multiset(rest) == (multiset([r]) + multiset(rest)) - multiset([r]);
    assert multiset(a + c) == (multiset(a + c) + multiset([r])) - multiset([r]);
  }

  /** Where the first row of x stands in another order of the same rows. */
  lemma FindFirst<T>(x: seq<T>, y: seq<T>) returns (a: seq<T>, c: seq<T>)
    requires x != [] && multiset(x) == multiset(y)
    ensures y == (a + [x[0]]) + c && multiset(x[1..]) == multiset(a + c)
  {
    assert x[0] in multiset(y);
    var j :| 0 <= j < |y| && y[j] == x[0];
    a, c := y[..j], y[j + 1..];
    assert y == (a + [x[0]]) + c && x == [x[0]] + x[1..];
    SameRest(x[0], x[1..], a, c);
  }

  lemma WidthParts(a: seq<Row>, r: Row, c: seq<Row>, width: nat)
    requires AllOfWidth((a + [r]) + c, width)
    ensures AllOfWidth(a, width) && AllOfWidth(c, width) && AllOfWidth(a + c, width) && AllOfWidth([r], width)
  {
    var y := (a + [r]) + c;
    assert forall i :: 0 <= i < |a| ==> y[i] == a[i];
    assert y[|a|] == r;
    assert forall i :: 0 <= i < |c| ==> y[|a| + 1 + i] == c[i];
  }

  /** Moving one row does not change what is projected, as a multiset. */
  lemma ProjectOneOut(x: seq<Row>, r: Row, z: seq<Row>, ps: seq<int>, px: seq<Row>, pr: seq<Row>, pz: seq<Row>)
    requires ProjectAll(x, ps) == Some(px) && ProjectAll([r], ps) == Some(pr) && ProjectAll(z, ps) == Some(pz)
    ensures ProjectAll((x + [r]) + z, ps) == Some((px + pr) + pz) && ProjectAll(x + z, ps) == Some(px + pz)
    ensures multiset((px + pr) + pz) == multiset(px + pz) + multiset(pr)
  {
    ProjectAllConcat(x + [r], z, ps);
    ProjectAllConcat(x, [r], ps);
    ProjectAllConcat(x, z, ps);
    AnyOrder(px, pr, pz);
  }

  /** The same rows in another order project to the same rows in another order. */
  lemma {:induction false} ProjectAnyOrder(x: seq<Row>, y: seq<Row>, ps: seq<int>, width: nat)
    returns (px: seq<Row>, py: seq<Row>)
    requires multiset(x) == multiset(y) && AllOfWidth(x, width) && AllOfWidth(y, width) && InRange(ps, width)
    ensures ProjectAll(x, ps) == Some(px) && ProjectAll(y, ps) == Some(py) && multiset(px) == multiset(py)
    decreases |x|
  {
    if x == [] {
      assert |multiset(y)| == 0;
      px, py := [], [];
    } else {
      var r, rest := x[0], x[1..];
      assert x == [r] + rest;
      var a, c := FindFirst(x, y);
      WidthParts(a, r, c, width);
      var pRest, pOthers := ProjectAnyOrder(rest, a + c, ps, width);
      var pr := ProjectAllMeaning([r], ps, width);
      var pa := ProjectAllMeaning(a, ps, width);
      var pc := ProjectAllMeaning(c, ps, width);
      ProjectOneOut(a, r, c, ps, pa, pr, pc);
      ProjectAllConcat([r], rest, ps);
      px, py := pr + pRest, (pa + pr) + pc;
    }
  }
}
