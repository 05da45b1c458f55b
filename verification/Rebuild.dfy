/**
  What a table's file determines: the index, the student numbers and the id counter,
  and that building the caches from the file yields exactly these.
 */
module Rebuild {
  import opened Entries
  import opened Text
  import opened RowLog
  import opened LogProofs
  import opened EngineSpec

  ghost predicate HasId(row: Row, idc: int) {
    0 <= idc < |row| && ParseU64(row[idc]).Some?
  }

  ghost function IdOf(row: Row, idc: int): u64 {
    if HasId(row, idc) then ParseU64(row[idc]).value else 0
  }

  ghost function StudentOf(row: Row, stc: int): string {
    if 0 <= stc < |row| then row[stc] else ""
  }

  ghost function IdsOf(items: seq<Item>, idc: int): set<u64> {
    if items == [] then {} else IdsOf(items[..|items| - 1], idc) + {IdOf(items[|items| - 1].row, idc)}
  }

  ghost function StudentSet(items: seq<Item>, stc: int): set<string> {
    if items == [] then {} else StudentSet(items[..|items| - 1], stc) + {StudentOf(items[|items| - 1].row, stc)}
  }

  /** The index entries of the rows, each inserted in turn. */
  ghost function IndexOf(items: seq<Item>, idc: int): seq<Entry> {
    if items == [] then []
    else
      var n := |items| - 1;
      Inserted(IndexOf(items[..n], idc), IdOf(items[n].row, idc), items[n].ref)
  }

  ghost function MaxIdOf(items: seq<Item>, idc: int): u64 {
    if items == [] then 0
    else
      var n := |items| - 1;
      var m, id := MaxIdOf(items[..n], idc), IdOf(items[n].row, idc);
      if id > m then id else m
  }

  /** The student numbers of the rows, when the table has that column. */
  ghost function StudentsOf(items: seq<Item>, stc: int): Option<set<string>> {
    if stc < 0 then None else Some(StudentSet(items, stc))
  }

  /** A row that may follow the given ones: a fresh numeric id, and a fresh student number that is not empty. */
  ghost predicate GoodNext(items: seq<Item>, row: Row, idc: int, stc: int) {
    && HasId(row, idc) && IdOf(row, idc) !in IdsOf(items, idc)
    && (stc >= 0 ==> stc < |row| && row[stc] != "" && row[stc] !in StudentSet(items, stc))
  }

  /** The rows a table may hold. */
  ghost predicate GoodItems(items: seq<Item>, idc: int, stc: int) {
    items == [] ||
    (GoodItems(items[..|items| - 1], idc, stc) && GoodNext(items[..|items| - 1], items[|items| - 1].row, idc, stc))
  }

  ghost function CachesOf(items: seq<Item>, idc: int, stc: int): Build {
    Build(IndexOf(items, idc), StudentsOf(items, stc), MaxIdOf(items, idc))
  }

  // ---- What these mean ----

  lemma {:induction false} InIds(items: seq<Item>, idc: int, k: u64)
    ensures k in IdsOf(items, idc) <==> exists i :: 0 <= i < |items| && IdOf(items[i].row, idc) == k
  {
    if items != [] {
      var n := |items| - 1;
      var s := items[..n];
      InIds(s, idc, k);
      assert forall i :: 0 <= i < n ==> s[i] == items[i];
    }
  }

  lemma {:induction false} InStudents(items: seq<Item>, stc: int, x: string)
    ensures x in StudentSet(items, stc) <==> exists i :: 0 <= i < |items| && StudentOf(items[i].row, stc) == x
  {
    if items != [] {
      var n := |items| - 1;
      var s := items[..n];
      InStudents(s, stc, x);
      assert forall i :: 0 <= i < n ==> s[i] == items[i];
    }
  }

  /** The same, said of rows and pairs of rows. */
  ghost predicate PairwiseGood(items: seq<Item>, idc: int, stc: int) {
    && (forall i :: 0 <= i < |items| ==> GoodAlone(items[i].row, idc, stc))
    && (forall i, j :: 0 <= i < j < |items| ==> GoodTogether(items[i].row, items[j].row, idc, stc))
  }

  ghost predicate GoodAlone(row: Row, idc: int, stc: int) {
    HasId(row, idc) && (stc >= 0 ==> stc < |row| && row[stc] != "")
  }

  ghost predicate GoodTogether(r: Row, q: Row, idc: int, stc: int) {
    IdOf(r, idc) != IdOf(q, idc) && (stc >= 0 ==> StudentOf(r, stc) != StudentOf(q, stc))
  }

  lemma GoodNextIff(items: seq<Item>, row: Row, idc: int, stc: int)
    ensures GoodNext(items, row, idc, stc) <==>
      GoodAlone(row, idc, stc) && forall i :: 0 <= i < |items| ==> GoodTogether(items[i].row, row, idc, stc)
  {
    InIds(items, idc, IdOf(row, idc));
    InStudents(items, stc, StudentOf(row, stc));
  }

  /** Good rows have numeric ids and student numbers that are not empty, and no two rows agree on either. */
  lemma {:induction false} GoodItemsIffPairwise(items: seq<Item>, idc: int, stc: int)
    ensures GoodItems(items, idc, stc) <==> PairwiseGood(items, idc, stc)
  {
    if items != [] {
      var n := |items| - 1;
      var s := items[..n];
      GoodItemsIffPairwise(s, idc, stc);
      GoodNextIff(s, items[n].row, idc, stc);
      PairwiseStep(items, idc, stc);
    }
  }

  lemma PairwiseStep(items: seq<Item>, idc: int, stc: int)
    requires items != []
    ensures var n := |items| - 1; PairwiseGood(items, idc, stc) <==>
      && PairwiseGood(items[..n], idc, stc) && GoodAlone(items[n].row, idc, stc)
      && forall i :: 0 <= i < n ==> GoodTogether(items[..n][i].row, items[n].row, idc, stc)
  {
    var n := |items| - 1;
    var s := items[..n];
    assert forall i :: 0 <= i < n ==> s[i] == items[i];
  }

  /** The index holds exactly the ids of the rows. */
  lemma {:induction false} IndexKeys(items: seq<Item>, idc: int, k: u64)
    ensures HasKey(IndexOf(items, idc), k) <==> k in IdsOf(items, idc)
  {
    if items != [] {
      var n := |items| - 1;
      IndexKeys(items[..n], idc, k);
      InsertedKeys(IndexOf(items[..n], idc), IdOf(items[n].row, idc), items[n].ref, k);
    }
  }

  lemma InsertedKeys(s: seq<Entry>, k: u64, r: RowRef, q: u64)
    ensures HasKey(Inserted(s, k, r), q) <==> HasKey(s, q) || q == k
  {
    var p, t := Rank(s, k), Inserted(s, k, r);
    assert t[p].key == k;
    if i :| 0 <= i < |s| && s[i].key == q {
      assert t[if i < p then i else i + 1] == s[i];
    }
    if i :| 0 <= i < |t| && t[i].key == q && i != p {
      assert s[if i < p then i else i - 1] == t[i];
    }
  }

  /** With good rows the index is in ascending order. */
  lemma {:induction false} IndexAscending(items: seq<Item>, idc: int, stc: int)
    requires GoodItems(items, idc, stc)
    ensures Ascending(IndexOf(items, idc))
  {
    if items != [] {
      var n := |items| - 1;
      var id := IdOf(items[n].row, idc);
      IndexAscending(items[..n], idc, stc);
      IndexKeys(items[..n], idc, id);
      InsertedAscending(IndexOf(items[..n], idc), id, items[n].ref);
    }
  }

  lemma InsertedMembers(s: seq<Entry>, k: u64, r: RowRef, e: Entry)
    ensures e in Inserted(s, k, r) <==> e in s || e == Entry(k, r)
  {
    assert s == s[..Rank(s, k)] + s[Rank(s, k)..];
  }

  ghost predicate HasEntry(items: seq<Item>, idc: int, e: Entry) {
    exists i :: 0 <= i < |items| && e == EntryOf(items[i], idc)
  }

  lemma HasEntryStep(items: seq<Item>, idc: int, e: Entry)
    requires items != []
    ensures var n := |items| - 1;
      HasEntry(items, idc, e) <==> HasEntry(items[..n], idc, e) || e == EntryOf(items[n], idc)
  {
    var s := items[..|items| - 1];
    assert forall i :: 0 <= i < |s| ==> s[i] == items[i];
  }

  /** The index maps the id of each row to the offset of that row, and holds nothing else. */
  lemma {:induction false} IndexIsRows(items: seq<Item>, idc: int, e: Entry)
    ensures e in IndexOf(items, idc) <==> HasEntry(items, idc, e)
  {
    if items != [] {
      var n := |items| - 1;
      IndexIsRows(items[..n], idc, e);
      InsertedMembers(IndexOf(items[..n], idc), IdOf(items[n].row, idc), items[n].ref, e);
      HasEntryStep(items, idc, e);
    }
  }

  ghost function EntryOf(item: Item, idc: int): Entry {
    Entry(IdOf(item.row, idc), item.ref)
  }

  /** Every stored id is at most the counter. */
  lemma {:induction false} MaxIdBound(items: seq<Item>, idc: int, k: u64)
    requires k in IdsOf(items, idc)
    ensures k <= MaxIdOf(items, idc)
  {
    var n := |items| - 1;
    if k in IdsOf(items[..n], idc) {
      MaxIdBound(items[..n], idc, k);
    }
  }

  /** The counter is a stored id, or there is no row. */
  lemma {:induction false} MaxIdStored(items: seq<Item>, idc: int)
    ensures items == [] || MaxIdOf(items, idc) in IdsOf(items, idc)
  {
    if items != [] {
      MaxIdStored(items[..|items| - 1], idc);
    }
  }

  // ---- One more row ----

  /** One more row: the callback accepts it exactly when it is good, and then the caches are those of all rows. */
  lemma IndexRowIffGood(done: seq<Item>, item: Item, idc: int, stc: int)
    requires GoodItems(done, idc, stc)
    ensures var (acc, ok) := IndexRow(CachesOf(done, idc, stc), item.ref, item.row, idc, stc);
      && (ok <==> GoodItems(done + [item], idc, stc))
      && (ok ==> acc == CachesOf(done + [item], idc, stc))
  {
    var all := done + [item];
    assert all[..|all| - 1] == done;
    IndexKeys(done, idc, IdOf(item.row, idc));
  }

  /** The caches after one more row. */
  lemma CachesOfAppend(items: seq<Item>, item: Item, idc: int, stc: int)
    ensures IndexOf(items + [item], idc) == Inserted(IndexOf(items, idc), IdOf(item.row, idc), item.ref)
    ensures StudentSet(items + [item], stc) == StudentSet(items, stc) + {StudentOf(item.row, stc)}
    ensures IdsOf(items + [item], idc) == IdsOf(items, idc) + {IdOf(item.row, idc)}
    ensures MaxIdOf(items + [item], idc)
         == if IdOf(item.row, idc) > MaxIdOf(items, idc) then IdOf(item.row, idc) else MaxIdOf(items, idc)
    ensures GoodItems(items + [item], idc, stc) <==> GoodItems(items, idc, stc) && GoodNext(items, item.row, idc, stc)
  {
    var all := items + [item];
    assert all[..|all| - 1] == items;
  }

  lemma {:induction false} GoodPrefix(a: seq<Item>, b: seq<Item>, idc: int, stc: int)
    requires GoodItems(a + b, idc, stc)
    ensures GoodItems(a, idc, stc)
    decreases |b|
  {
    if b == [] {
      assert a + b == a;
    } else {
      var n := |b| - 1;
      assert (a + b)[..|a + b| - 1] == a + b[..n];
      GoodPrefix(a, b[..n], idc, stc);
    }
  }

  // ---- Building from a file, and where it stops ----

  /** A row refused for its id alone, whose student number has been cached by then. */
  ghost predicate LeavesNumber(done: seq<Item>, row: Row, idc: int, stc: int) {
    && stc >= 0 && stc < |row| && row[stc] != "" && row[stc] !in StudentSet(done, stc)
    && HasId(row, idc) && IdOf(row, idc) in IdsOf(done, idc)
  }

  /** The caches when a row is refused after the given ones. */
  ghost function RefusedAt(done: seq<Item>, row: Row, idc: int, stc: int): Build {
    var acc := CachesOf(done, idc, stc);
    if LeavesNumber(done, row, idc, stc) then acc.(students := Some(StudentSet(done, stc) + {row[stc]})) else acc
  }

  lemma RefusedRow(done: seq<Item>, item: Item, idc: int, stc: int)
    requires !GoodNext(done, item.row, idc, stc)
    ensures IndexRow(CachesOf(done, idc, stc), item.ref, item.row, idc, stc)
         == (RefusedAt(done, item.row, idc, stc), false)
  {
    IndexKeys(done, idc, IdOf(item.row, idc));
  }

  /** k rows are good together, and k is all of them or the next one is bad. */
  ghost predicate FirstBad(items: seq<Item>, k: nat, idc: int, stc: int) {
    && k <= |items| && GoodItems(items[..k], idc, stc)
    && (k < |items| ==> !GoodNext(items[..k], items[k].row, idc, stc))
  }

  /** What building leaves when it stops before row k, or after the last row. */
  ghost function StoppedAt(items: seq<Item>, k: nat, idc: int, stc: int): Build
    requires k <= |items|
  {
    if k < |items| then RefusedAt(items[..k], items[k].row, idc, stc) else CachesOf(items, idc, stc)
  }

  /** Building from a file keeps the caches of the rows before the first bad one. */
  lemma {:induction false} BuildStops(b: string, pos: nat, done: seq<Item>, idc: int, stc: int) returns (k: nat)
    requires pos <= |b| && GoodItems(done, idc, stc)
    ensures var items := done + ScanFrom(b, pos).items;
      && |done| <= k && FirstBad(items, k, idc, stc)
      && BuildFrom(b, pos, CachesOf(done, idc, stc), idc, stc)
         == (StoppedAt(items, k, idc, stc), k == |items| && ScanFrom(b, pos).ok)
    decreases |b| - pos
  {
    k := |done|;
    match RowAt(b, pos)
    case Eof => NothingMore(done);
    case Malformed => NothingMore(done);
    case Read(row, next) =>
      var item, rest := Item(pos, row), ScanFrom(b, next).items;
      OneMore(done, item, rest);
      CachesOfAppend(done, item, idc, stc);
      if GoodNext(done, row, idc, stc) {
        IndexRowIffGood(done, item, idc, stc);
        k := BuildStops(b, next, done + [item], idc, stc);
      } else {
        RefusedRow(done, item, idc, stc);
      }
  }

  lemma NothingMore(done: seq<Item>)
    ensures done + [] == done && done[..|done|] == done
  {
  }

  lemma OneMore(done: seq<Item>, item: Item, rest: seq<Item>)
    ensures done + ([item] + rest) == (done + [item]) + rest
    ensures (done + ([item] + rest))[|done|] == item && (done + ([item] + rest))[..|done|] == done
  {
  }

  /** Building the caches from a file works exactly when it scans to its end and its rows are good. */
  lemma BuildFromIffGood(b: string, pos: nat, done: seq<Item>, idc: int, stc: int)
    requires pos <= |b| && GoodItems(done, idc, stc)
    ensures var all := done + ScanFrom(b, pos).items;
      var (acc, ok) := BuildFrom(b, pos, CachesOf(done, idc, stc), idc, stc);
      && (ok <==> ScanFrom(b, pos).ok && GoodItems(all, idc, stc))
      && (ok ==> acc == CachesOf(all, idc, stc))
  {
    var all := done + ScanFrom(b, pos).items;
    var k := BuildStops(b, pos, done, idc, stc);
    FirstBadIsAll(all, k, idc, stc);
  }

  lemma FirstBadIsAll(items: seq<Item>, k: nat, idc: int, stc: int)
    requires FirstBad(items, k, idc, stc)
    ensures k == |items| <==> GoodItems(items, idc, stc)
  {
    if k == |items| {
      assert items[..k] == items;
    } else if GoodItems(items, idc, stc) {
      assert items == items[..k + 1] + items[k + 1..] && items[..k + 1][..k] == items[..k];
      GoodPrefix(items[..k + 1], items[k + 1..], idc, stc);
    }
  }

  /** One index entry for each row. */
  lemma {:induction false} IndexSize(items: seq<Item>, idc: int)
    ensures |IndexOf(items, idc)| == |items|
  {
    if items != [] {
      IndexSize(items[..|items| - 1], idc);
    }
  }
}
