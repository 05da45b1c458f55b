/**
  The loops behind the two index paths of SELECT: point lookup, and the walk along the
  chain of leaves that starts at a lower bound or ends at an upper one.
 */
module RangeScan {
  import opened Entries
  import opened Text
  import opened RowLog
  import opened BPlusTree
  import opened LeafChain
  import opened IdIndex
  import opened EngineSpec
  import opened Selects

  /** The row at an offset, for the result: it must have the width of the table. */
  method ReadRowByRef(b: string, ref: RowRef, width: nat) returns (row: Option<Row>)
    ensures row == RowByRef(b, ref, width)
  {
    if ref > |b| {
      return None;
    }
    var reader := new Reader(b, ref);
    var r := reader.ReadRow();
    match r {
      case Read(values, _) => row := if |values| == width then Some(values) else None;
      case Eof => row := None;
      case Malformed => row := None;
    }
  }

  // ---- Positions in the chain ----

  /** The number of entries in front of leaf k. */
  ghost function Before(ls: seq<Tree>, k: nat): nat
    requires k <= |ls|
  {
    |EntsOf(ls[..k])|
  }

  lemma LeafAt(ls: seq<Tree>, k: nat)
    requires k < |ls| && AllLeaves(ls) && HoldAll(ls, null)
    ensures NodeHolds(ls[k]) && ls[k].node.next == if k + 1 < |ls| then ls[k + 1].node else null
    ensures Before(ls, k + 1) == Before(ls, k) + |ls[k].ents| <= |EntsOf(ls)|
    ensures EntsOf(ls)[Before(ls, k)..Before(ls, k + 1)] == ls[k].ents
  {
    assert Holds(ls[k], After(ls, k, null));
    EntsOfAround(ls, k);
    EntsOfAround(ls[..k + 1], k);
    assert ls[..k + 1][..k] == ls[..k] && ls[..k + 1][k + 1..] == [];
  }

  lemma AllBefore(ls: seq<Tree>)
    ensures Before(ls, |ls|) == |EntsOf(ls)| && Before(ls, 0) == 0
  {
    assert ls[..|ls|] == ls;
  }

  // ---- One entry at a time ----

  /** The search so far: the rows of the first pos entries, or the failure of the whole search. */
  ghost predicate SoFar(b: string, es: seq<Entry>, pos: nat, op: Op, id: u64, width: nat, rows: Option<seq<Row>>) {
    match rows
    case Some(out) => pos <= |es| && Found(b, es[..pos], op, id, width) == Some(out)
    case None => Found(b, es, op, id, width) == None
  }

  lemma Finished(b: string, es: seq<Entry>, op: Op, id: u64, width: nat, rows: Option<seq<Row>>)
    requires SoFar(b, es, |es|, op, id, width, rows)
    ensures rows == Found(b, es, op, id, width)
  {
    assert es[..|es|] == es;
  }

  lemma TakeOne(es: seq<Entry>, pos: nat)
    requires pos < |es|
    ensures es[..pos + 1] == es[..pos] + [es[pos]] && es == es[..pos + 1] + es[pos + 1..]
  {
  }

  lemma FoundEntry(b: string, e: Entry, op: Op, id: u64, width: nat)
    ensures Found(b, [e], op, id, width) ==
      if !Satisfies(e.key, op, id) then Some([])
      else match RowByRef(b, e.ref, width)
           case None => None
           case Some(row) => Some([row])
  {
    assert [e][1..] == [] && RowsByRefs(b, [], width) == Some([]);
    assert Matching([e], op, id) == if Satisfies(e.key, op, id) then [e] else [];
    assert forall row: Row :: [row] + [] == [row];
  }

  /** The result grows by the next entry's row, if that entry matches; an unreadable one fails the whole search. */
  lemma FoundNext(b: string, es: seq<Entry>, pos: nat, op: Op, id: u64, width: nat, out: seq<Row>)
    requires pos < |es| && SoFar(b, es, pos, op, id, width, Some(out))
    ensures !Satisfies(es[pos].key, op, id) ==> SoFar(b, es, pos + 1, op, id, width, Some(out))
    ensures Satisfies(es[pos].key, op, id) ==> match RowByRef(b, es[pos].ref, width)
      case Some(row) => SoFar(b, es, pos + 1, op, id, width, Some(out + [row]))
      case None => SoFar(b, es, pos, op, id, width, None)
  {
    TakeOne(es, pos);
    FoundEntry(b, es[pos], op, id, width);
    FoundConcat(b, es[..pos], [es[pos]], op, id, width);
    FoundConcat(b, es[..pos + 1], es[pos + 1..], op, id, width);
    assert out + [] == out;
  }

  lemma NoneFrom(es: seq<Entry>, pos: nat, op: Op, id: u64)
    requires Ascending(es) && pos < |es|
    requires (op == Less && es[pos].key >= id) || (op == LessEqual && es[pos].key > id)
    ensures Matching(es[pos..], op, id) == []
  {
    MatchingUniform(es[pos..], op, id, false);
  }

  lemma WholeOf<T>(es: seq<T>, pos: nat)
    requires pos <= |es|
    ensures es[..pos] + es[pos..] == es == es[..|es|]
  {
  }

  /** Nothing is missed by stopping at the first key past the bound. */
  lemma FoundRest(b: string, es: seq<Entry>, pos: nat, op: Op, id: u64, width: nat, out: seq<Row>)
    requires Ascending(es) && pos < |es| && SoFar(b, es, pos, op, id, width, Some(out))
    requires (op == Less && es[pos].key >= id) || (op == LessEqual && es[pos].key > id)
    ensures SoFar(b, es, |es|, op, id, width, Some(out))
  {
    NoneFrom(es, pos, op, id);
    FoundConcat(b, es[..pos], es[pos..], op, id, width);
    WholeOf(es, pos);
    assert out + [] == out;
  }

  /** Nothing is missed by starting at the lower bound. */
  lemma FoundNoneBelow(b: string, es: seq<Entry>, op: Op, id: u64, width: nat)
    requires op == Greater || op == GreaterEqual
    ensures SoFar(b, es, Rank(es, id), op, id, width, Some([]))
  {
    MatchingUniform(es[..Rank(es, id)], op, id, false);
  }

  lemma FoundNoneYet(b: string, es: seq<Entry>, op: Op, id: u64, width: nat)
    ensures SoFar(b, es, 0, op, id, width, Some([]))
  {
    assert es[..0] == [];
  }

  /** From position low on, no key is below id. */
  ghost predicate NotBelow(es: seq<Entry>, low: nat, id: u64) {
    forall i :: low <= i < |es| ==> id <= es[i].key
  }

  lemma NotBelowRank(es: seq<Entry>, id: u64)
    requires Ascending(es)
    ensures NotBelow(es, Rank(es, id), id)
  {
    forall i | Rank(es, id) <= i < |es| ensures id <= es[i].key {
      assert es[Rank(es, id)].key <= es[i].key;
    }
  }

  // ---- Point lookup ----

  lemma PointMissing(es: seq<Entry>, id: u64)
    requires !HasKey(es, id)
    ensures Matching(es, Equal, id) == []
  {
    MatchingUniform(es, Equal, id, false);
  }

  lemma PointFound(es: seq<Entry>, id: u64, ref: RowRef)
    requires Ascending(es) && Entry(id, ref) in es
    ensures Matching(es, Equal, id) == [Entry(id, ref)] == Matching([Entry(id, ref)], Equal, id)
  {
    var j :| 0 <= j < |es| && es[j] == Entry(id, ref);
    MatchingConcat(es[..j] + [es[j]], es[j + 1..], Equal, id);
    MatchingConcat(es[..j], [es[j]], Equal, id);
    MatchingUniform(es[..j], Equal, id, false);
    MatchingUniform([es[j]], Equal, id, true);
    MatchingUniform(es[j + 1..], Equal, id, false);
    assert es == es[..j] + [es[j]] + es[j + 1..];
  }

  /** SELECT by id: at most one row. */
  method SelectById(ix: Index, b: string, width: nat, id: u64) returns (rows: Option<seq<Row>>)
    requires ix.Valid()
    ensures rows == Found(b, ix.Entries(), Equal, id, width)
  {
    ix.Facts();
    var rc, ref := ix.Find(id);
    if rc != 0 {
      PointMissing(ix.Entries(), id);
      return Some([]);
    }
    PointFound(ix.Entries(), id, ref);
    FoundEntry(b, Entry(id, ref), Equal, id, width);
    var row := ReadRowByRef(b, ref, width);
    rows := match row case None => None case Some(r) => Some([r]);
  }

  // ---- One leaf ----

  /** A leaf of the chain, and the stretch of the entries that it holds. */
  ghost predicate LeafHolds(lt: Tree, leaf: Node, es: seq<Entry>, from: nat, end: nat)
    reads Own(lt.node)
  {
    match lt
    case Inner(_, _, _) => false
    case Leaf(n, ents) => n == leaf && NodeHolds(lt) && from + |ents| == end <= |es| && es[from..end] == ents
  }

  lemma LeafEntry(lt: Tree, leaf: Node, es: seq<Entry>, from: nat, end: nat, index: nat)
    requires LeafHolds(lt, leaf, es, from, end) && index < leaf.size
    ensures from + index < end && es[from + index].key == leaf.keys[index] && es[from + index].ref == leaf.refs[index]
  {
    assert es[from..end][index] == es[from + index];
  }

  /** The rest of one leaf, for > and >=: entries not above the bound are passed over. */
  method LeafFrom(leaf: Node, first: nat, b: string, width: nat, op: Op, id: u64, before: seq<Row>,
                  ghost lt: Tree, ghost es: seq<Entry>, ghost from: nat, ghost pos: nat, ghost end: nat,
                  ghost foot: set<object>)
    returns (rows: Option<seq<Row>>)
    requires LeafHolds(lt, leaf, es, from, end) && first <= |lt.ents| && pos == from + first && foot == Own(leaf)
    requires NotBelow(es, pos, id) && (op == Greater || op == GreaterEqual)
    requires SoFar(b, es, pos, op, id, width, Some(before))
    ensures SoFar(b, es, end, op, id, width, rows)
  {
    var out, index: nat := before, first;
    while index < leaf.size
      invariant LeafHolds(lt, leaf, es, from, end) && index <= |lt.ents|
      invariant NotBelow(es, from + index, id) && SoFar(b, es, from + index, op, id, width, Some(out))
    {
      LeafEntry(lt, leaf, es, from, end, index);
      FoundNext(b, es, from + index, op, id, width, out);
      if op == Greater && leaf.keys[index] <= id {
        index := index + 1;
        continue;
      }
      var row := ReadRowByRef(b, leaf.refs[index], width);
      assert unchanged(foot);
      if row.None? {
        return None;
      }
      out := out + [row.value];
      index := index + 1;
    }
    rows := Some(out);
  }

  /** One leaf, for < and <=: over at the first key past the bound. */
  method LeafUpTo(leaf: Node, b: string, width: nat, op: Op, id: u64, before: seq<Row>,
                  ghost lt: Tree, ghost es: seq<Entry>, ghost from: nat, ghost end: nat, ghost foot: set<object>)
    returns (rows: Option<seq<Row>>, over: bool)
    requires LeafHolds(lt, leaf, es, from, end) && foot == Own(leaf)
    requires Ascending(es) && (op == Less || op == LessEqual)
    requires SoFar(b, es, from, op, id, width, Some(before))
    ensures SoFar(b, es, if over then |es| else end, op, id, width, rows)
  {
    var out, index: nat := before, 0;
    ghost var at: nat := from;
    while index < leaf.size
      invariant LeafHolds(lt, leaf, es, from, end) && index <= |lt.ents| && at == from + index
      invariant SoFar(b, es, at, op, id, width, Some(out))
    {
      LeafEntry(lt, leaf, es, from, end, index);
      var key := leaf.keys[index];
      if (op == Less && key >= id) || (op == LessEqual && key > id) {
        FoundRest(b, es, at, op, id, width, out);
        return Some(out), true;
      }
      FoundNext(b, es, at, op, id, width, out);
      var row := ReadRowByRef(b, leaf.refs[index], width);
      assert unchanged(foot);
      if row.None? {
        return None, true;
      }
      out, index, at := out + [row.value], index + 1, at + 1;
    }
    assert at == end;
    rows, over := Some(out), false;
  }

  // ---- The chain ----

  /** The whole chain of leaves holds the entries. */
  ghost predicate ChainHolds(ls: seq<Tree>, es: seq<Entry>)
    reads FootprintOf(ls)
  {
    HoldAll(ls, null) && AllLeaves(ls) && EntsOf(ls) == es && Ascending(es)
  }

  /** The walk stands in leaf k, whose entries start at position from, or past the last leaf. */
  ghost predicate Standing(ls: seq<Tree>, es: seq<Entry>, k: nat, leaf: Node?, from: nat) {
    && k <= |ls| && from == Before(ls, k)
    && if k < |ls| then leaf == ls[k].node else leaf == null && from == |es|
  }

  ghost predicate Within(ls: seq<Tree>, k: nat, index: nat) {
    if k < |ls| then ls[k].Leaf? && index <= |ls[k].ents| else index == 0
  }

  lemma NextLeaf(ls: seq<Tree>, es: seq<Entry>, k: nat, from: nat) returns (end: nat)
    requires k < |ls| && ChainHolds(ls, es) && Standing(ls, es, k, ls[k].node, from)
    ensures Standing(ls, es, k + 1, ls[k].node.next, end) && from <= end <= |es|
    ensures LeafHolds(ls[k], ls[k].node, es, from, end) && Own(ls[k].node) <= FootprintOf(ls)
    ensures Within(ls, k + 1, 0) && from <= end
  {
    LeafAt(ls, k);
    AllBefore(ls);
    assert Own(ls[k].node) <= Footprint(ls[k]);
    end := from + |ls[k].ents|;
  }

  lemma NotBelowLater(es: seq<Entry>, low: nat, later: nat, id: u64)
    requires NotBelow(es, low, id) && low <= later
    ensures NotBelow(es, later, id)
  {
  }

  /** The walk from the given leaf to the end of the chain. */
  method WalkFrom(start: Node, first: nat, b: string, width: nat, op: Op, id: u64,
                  ghost ls: seq<Tree>, ghost es: seq<Entry>, ghost at: nat, ghost startPos: nat, ghost low: nat,
                  ghost foot: set<object>)
    returns (rows: Option<seq<Row>>)
    requires ChainHolds(ls, es) && foot == FootprintOf(ls)
    requires Standing(ls, es, at, start, startPos) && low == startPos + first && NotBelow(es, low, id)
    requires SoFar(b, es, low, op, id, width, Some([]))
    requires Within(ls, at, first) && (op == Greater || op == GreaterEqual)
    ensures SoFar(b, es, |es|, op, id, width, rows)
  {
    rows := Some([]);
    var leaf: Node?, index: nat := start, first;
    ghost var k: nat, from: nat, pos: nat := at, startPos, low;
    while leaf != null
      invariant ChainHolds(ls, es) && Standing(ls, es, k, leaf, from) && Within(ls, k, index)
      invariant pos == from + index && NotBelow(es, pos, id)
      invariant rows.Some? && SoFar(b, es, pos, op, id, width, rows)
      decreases |ls| - k
    {
      ghost var end := NextLeaf(ls, es, k, from);
      rows := LeafFrom(leaf, index, b, width, op, id, rows.value, ls[k], es, from, pos, end, Own(leaf));
      assert unchanged(foot) && old(ChainHolds(ls, es));
      if rows.None? {
        return;
      }
      NotBelowLater(es, pos, end, id);
      leaf, index, k, from, pos := leaf.next, 0, k + 1, end, end;
    }
  }

  /** The walk from the first leaf to the first key past the bound. */
  method WalkUpTo(start: Node, b: string, width: nat, op: Op, id: u64,
                  ghost ls: seq<Tree>, ghost es: seq<Entry>, ghost foot: set<object>)
    returns (rows: Option<seq<Row>>)
    requires ChainHolds(ls, es) && foot == FootprintOf(ls) && ls != [] && ls[0].node == start
    requires op == Less || op == LessEqual
    ensures SoFar(b, es, |es|, op, id, width, rows)
  {
    FoundNoneYet(b, es, op, id, width);
    AllBefore(ls);
    rows := Some([]);
    var leaf: Node? := start;
    ghost var k: nat, from: nat := 0, 0;
    while leaf != null
      invariant ChainHolds(ls, es) && Standing(ls, es, k, leaf, from)
      invariant rows.Some? && SoFar(b, es, from, op, id, width, rows)
      decreases |ls| - k
    {
      ghost var end := NextLeaf(ls, es, k, from);
      var over;
      rows, over := LeafUpTo(leaf, b, width, op, id, rows.value, ls[k], es, from, end, Own(leaf));
      assert unchanged(foot) && old(ChainHolds(ls, es));
      if rows.None? || over {
        return;
      }
      leaf, k, from := leaf.next, k + 1, end;
    }
  }

  /** SELECT by a comparison of id other than equality. */
  method SelectByIdRange(ix: Index, b: string, width: nat, op: Op, id: u64) returns (rows: Option<seq<Row>>)
    requires ix.Valid() && op != Equal
    ensures rows == Found(b, ix.Entries(), op, id, width)
  {
    ghost var ls, es := Leaves(ix.tree), ix.Entries();
    if op == Greater || op == GreaterEqual {
      var found, leaf, index;
      ghost var k;
      found, leaf, index, k := ix.LowerBound(id);
      ix.Facts();
      FoundNoneBelow(b, es, op, id, width);
      NotBelowRank(es, id);
      if found {
        rows := WalkFrom(leaf, index, b, width, op, id, ls, es, k, Before(ls, k), Rank(es, id), FootprintOf(ls));
      } else {
        rows := Some([]);
      }
    } else {
      var leaf := ix.LeftmostLeaf();
      ix.Facts();
      rows := WalkUpTo(leaf, b, width, op, id, ls, es, FootprintOf(ls));
    }
    Finished(b, es, op, id, width, rows);
  }
}
