/**
  The caches of the active table: its id index and its set of student numbers, and the
  scan that fills them from the table's file.
 */
module Caches {
  import opened Entries
  import opened Text
  import opened RowLog
  import opened IdIndex
  import S = StudentNoSet
  import Spec = EngineSpec

  class Caches {
    var index: Index
    const studentNos: S.StudentNoSet
    ghost var Repr: set<object>

    ghost predicate Valid()
      reads this, Repr
      ensures Valid() ==> this in Repr
    {
      && this in Repr && index in Repr && studentNos in Repr && index.Repr <= Repr
      && studentNos.slots in Repr
      && Repr == {this, studentNos, studentNos.slots} + index.Repr
      && {this, studentNos, studentNos.slots} !! index.Repr
      && index.Valid() && studentNos.Valid()
    }

    /** The index as a value. */
    ghost function Ids(): seq<Entry>
      requires Valid()
      reads this, Repr
    {
      index.Entries()
    }

    /** The cached student numbers, if the set is set up. */
    ghost function Students(): Option<set<string>>
      requires Valid()
      reads this, Repr
    {
      if studentNos.Ready() then Some(studentNos.Contents()) else None
    }

    constructor (hash: string -> nat)
      ensures Valid() && fresh(Repr) && Ids() == [] && Students() == None
    {
      index := new Index();
      studentNos := new S.StudentNoSet(hash);
      new;
      Repr := {this, studentNos, studentNos.slots} + index.Repr;
    }

    /** The set of student numbers is given up. */
    method DropStudents()
      requires Valid()
      modifies Repr
      ensures Valid() && fresh(Repr - old(Repr)) && Ids() == old(Ids()) && Students() == None
    {
      studentNos.Drop();
      Repr := {this, studentNos, studentNos.slots} + index.Repr;
    }

    /** An empty set, when the table has that column. */
    method SetUpStudents(stc: int)
      requires Valid() && Students() == None
      modifies Repr
      ensures Valid() && fresh(Repr - old(Repr)) && Ids() == old(Ids())
      ensures Students() == if stc >= 0 then Some({}) else None
    {
      if stc >= 0 {
        studentNos.Init();
        Repr := {this, studentNos, studentNos.slots} + index.Repr;
      }
    }

    /** An empty index takes the place of the old one. */
    method ResetIndex()
      requires Valid()
      modifies Repr
      ensures Valid() && fresh(Repr - old(Repr)) && Ids() == [] && Students() == old(Students())
    {
      index := new Index();
      Repr := {this, studentNos, studentNos.slots} + index.Repr;
    }

    method HasStudent(x: string) returns (found: bool)
      requires Valid()
      ensures found <==> Students().Some? && x in Students().value
    {
      found := studentNos.Contains(x);
      if !studentNos.Ready() {
        found := false;
      }
    }

    method AddStudent(x: string) returns (res: S.SetResult)
      requires Valid()
      modifies Repr
      ensures Valid() && fresh(Repr - old(Repr)) && Ids() == old(Ids())
      ensures res == if old(Students()).None? then S.NotReady
                     else if x in old(Students()).value then S.Duplicate else S.Inserted
      ensures Students() == if res == S.Inserted then Some(old(Students()).value + {x}) else old(Students())
    {
      res := studentNos.Insert(x);
      Repr := {this, studentNos, studentNos.slots} + index.Repr;
    }

    method AddEntry(id: u64, ref: RowRef) returns (rc: int)
      requires Valid()
      modifies Repr
      ensures Valid() && fresh(Repr - old(Repr)) && Students() == old(Students())
      ensures rc == if HasKey(old(Ids()), id) then 1 else 0
      ensures Ids() == if rc == 0 then Inserted(old(Ids()), id, ref) else old(Ids())
    {
      rc := index.Insert(id, ref);
      Repr := {this, studentNos, studentNos.slots} + index.Repr;
    }

    /** One scanned row enters the caches. */
    method IndexRow(ref: RowRef, row: Row, idc: int, stc: int, maxId: u64) returns (ok: bool, maxId': u64)
      requires Valid()
      modifies Repr
      ensures Valid() && fresh(Repr - old(Repr))
      ensures (Spec.Build(Ids(), Students(), maxId'), ok)
           == Spec.IndexRow(Spec.Build(old(Ids()), old(Students()), maxId), ref, row, idc, stc)
    {
      ok, maxId' := false, maxId;
      if idc < 0 || idc >= |row| || ParseU64(row[idc]).None? {
        return;
      }
      if stc >= 0 {
        if stc >= |row| || row[stc] == "" {
          return;
        }
        var res := AddStudent(row[stc]);
        if res != S.Inserted {
          return;
        }
      }
      var id := ParseU64(row[idc]).value;
      var rc := AddEntry(id, ref);
      ok := rc == 0;
      if ok && id > maxId {
        maxId' := id;
      }
    }

    /** Scan of a file into the caches, up to the first row that is refused. */
    method BuildIndex(b: string, idc: int, stc: int) returns (ok: bool, maxId: u64)
      requires Valid()
      modifies Repr
      ensures Valid() && fresh(Repr - old(Repr))
      ensures (Spec.Build(Ids(), Students(), maxId), ok)
           == Spec.BuildFrom(b, 0, Spec.Build(old(Ids()), old(Students()), 0), idc, stc)
    {
      ghost var start := Spec.Build(Ids(), Students(), 0);
      var reader := new Reader(b, 0);
      maxId := 0;
      while true
        invariant Valid() && fresh(Repr - old(Repr)) && reader !in Repr && fresh(reader)
        invariant reader.bytes == b && reader.pos <= |b|
        invariant Spec.BuildFrom(b, 0, start, idc, stc)
               == Spec.BuildFrom(b, reader.pos, Spec.Build(Ids(), Students(), maxId), idc, stc)
        decreases |b| - reader.pos
      {
        var pos := reader.pos;
        var r := reader.ReadRow();
        match r {
          case Eof =>
            return true, maxId;
          case Malformed =>
            return false, maxId;
          case Read(row, next) =>
            ok, maxId := IndexRow(pos, row, idc, stc, maxId);
            if !ok {
              return;
            }
        }
      }
    }

    /** Sets up the caches of a table and fills them from its file; the index is empty already. */
    method FillFrom(b: string, idc: int, stc: int) returns (ok: bool, maxId: u64)
      requires Valid() && Students() == None && Ids() == []
      modifies Repr
      ensures Valid() && fresh(Repr - old(Repr))
      ensures (Spec.Build(Ids(), Students(), maxId), ok)
           == Spec.BuildFrom(b, 0, Spec.Build([], if stc >= 0 then Some({}) else None, 0), idc, stc)
    {
      SetUpStudents(stc);
      ok, maxId := BuildIndex(b, idc, stc);
    }
  }
}
