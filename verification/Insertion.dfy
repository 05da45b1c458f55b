/**
  Insertion into the B+ tree: leaf and internal splits, their cascade, and the growth of the root.
 */
module Insertion {
  import opened Entries
  import opened BPlusTree
  import opened NodeOps

  /** What an insertion reports to the level above: the new right neighbour and its separator. */
  datatype SplitResult = NoSplit | Split(promoted: u64, right: Node)

  /** The one or two trees that take the place of the old one fit the old bounds. */
  ghost predicate Placed(parts: seq<Tree>, res: SplitResult, h: nat, root: bool, lo: int, hi: int) {
    match res
    case NoSplit =>
      PlacedInOrder(parts, res, lo, hi) && Balanced(parts[0], h, root)
    case Split(_, _) =>
      PlacedInOrder(parts, res, lo, hi) && Balanced(parts[0], h, false) && Balanced(parts[1], h, false)
  }

  ghost predicate PlacedInOrder(parts: seq<Tree>, res: SplitResult, lo: int, hi: int) {
    match res
    case NoSplit => |parts| == 1 && Ordered(parts[0], lo, hi)
    case Split(p, right) =>
      && |parts| == 2 && parts[1].node == right
      && lo < p < hi
      && Ordered(parts[0], lo, p)
      && Ordered(parts[1], p, hi)
      && StartsAt(parts[1], p)
  }

  // ---- Leaves ----

  lemma LeafPlaced(node: Node, s: seq<Entry>, at: nat, id: u64, ref: RowRef)
    requires Ascending(s) && at <= |s|
    requires forall j :: 0 <= j < at ==> s[j].key < id
    requires at < |s| ==> id <= s[at].key
    ensures HasKey(s, id) <==> at < |s| && s[at].key == id
    ensures Inserted(s, id, ref) == InsertAt(s, at, Entry(id, ref))
  {
    RankIs(s, id, at);
  }

  lemma SingleEnts(t: Tree)
    ensures EntsOf([t]) == Ents(t)
  {
    assert [t][1..] == [];
  }

  lemma PairEnts(l: Tree, r: Tree)
    ensures EntsOf([l, r]) == Ents(l) + Ents(r)
  {
    assert [l, r][1..] == [r];
    SingleEnts(r);
  }

  lemma SingleParts(t: Tree, out: Node?)
    requires Holds(t, out) && Separate(t)
    ensures HoldAll([t], out) && Apart([t]) && FootprintOf([t]) == Footprint(t)
    ensures EntsOf([t]) == Ents(t)
  {
    SingleEnts(t);
    assert [t][0] == t;
  }

  lemma PairParts(l: Tree, r: Tree, out: Node?)
    requires Holds(l, First(r)) && Holds(r, out) && Separate(l) && Separate(r) && Footprint(l) !! Footprint(r)
    ensures HoldAll([l, r], out) && Apart([l, r]) && FootprintOf([l, r]) == Footprint(l) + Footprint(r)
  {
    assert [l, r][0] == l && [l, r][1] == r;
  }

  /** Cutting an ordered leaf of 32 entries in the middle gives two leaves that fit. */
  lemma LeafHalves(l: Tree, r: Tree, s: seq<Entry>, lo: int, hi: int)
    requires Ascending(s) && AllFrom(lo, s) && AllBelow(s, hi) && |s| == 32
    requires l.Leaf? && r.Leaf? && l.ents == s[..16] && r.ents == s[16..]
    ensures Placed([l, r], Split(s[16].key, r.node), 0, false, lo, hi)
    ensures EntsOf([l, r]) == s
  {
    PairEnts(l, r);
    assert lo <= s[0].key < s[16].key < hi;
  }

  lemma InsertedBounds(s: seq<Entry>, id: u64, ref: RowRef, lo: int, hi: int)
    requires Ascending(s) && AllFrom(lo, s) && AllBelow(s, hi) && lo <= id < hi && !HasKey(s, id)
    ensures Ascending(Inserted(s, id, ref)) && AllFrom(lo, Inserted(s, id, ref)) && AllBelow(Inserted(s, id, ref), hi)
  {
    InsertedAscending(s, id, ref);
  }

  method AddToLeaf(node: Node, at: nat, id: u64, ref: RowRef, ghost s: seq<Entry>) returns (ghost t': Tree)
    requires NodeHolds(Leaf(node, s)) && at <= |s| < MAX_KEYS
    modifies node`size, node.keys, node.refs
    ensures t' == Leaf(node, InsertAt(s, at, Entry(id, ref))) && NodeHolds(t')
  {
    ghost var keys, refs := node.keys[..node.size], node.refs[..node.size];
    LeafInsertAt(node, at, id, ref);
    ghost var s' := InsertAt(s, at, Entry(id, ref));
    forall i | 0 <= i < |s'| ensures node.keys[i] == s'[i].key && node.refs[i] == s'[i].ref {
      assert node.keys[i] == InsertAt(keys, at, id)[i] && node.refs[i] == InsertAt(refs, at, ref)[i];
    }
    t' := Leaf(node, s');
  }

  method SplitLeaf(node: Node, at: nat, id: u64, ref: RowRef, ghost s: seq<Entry>)
    returns (promoted: u64, right: Node, ghost l: Tree, ghost r: Tree)
    requires NodeHolds(Leaf(node, s)) && at <= |s| == MAX_KEYS
    modifies node, node.keys, node.refs
    ensures l == Leaf(node, InsertAt(s, at, Entry(id, ref))[..16])
    ensures r == Leaf(right, InsertAt(s, at, Entry(id, ref))[16..])
    ensures NodeHolds(l) && NodeHolds(r) && fresh(Own(right)) && promoted == r.ents[0].key
    ensures node.next == right && right.next == old(node.next)
  {
    ghost var keys, refs := node.keys[..31], node.refs[..31];
    promoted, right := LeafSplit(node, at, id, ref);
    ghost var s' := InsertAt(s, at, Entry(id, ref));
    ghost var keys', refs' := InsertAt(keys, at, id), InsertAt(refs, at, ref);
    assert forall i :: 0 <= i < 32 ==> keys'[i] == s'[i].key && refs'[i] == s'[i].ref;
    forall i | 0 <= i < 16 ensures node.keys[i] == s'[i].key && node.refs[i] == s'[i].ref {
      assert node.keys[i] == keys'[i] && node.refs[i] == refs'[i];
    }
    forall i | 0 <= i < 16 ensures right.keys[i] == s'[16 + i].key && right.refs[i] == s'[16 + i].ref {
      assert right.keys[i] == keys'[16 + i] && right.refs[i] == refs'[16 + i];
    }
    l, r := Leaf(node, s'[..16]), Leaf(right, s'[16..]);
  }

  /** A fresh id goes into a leaf with room. */
  method InsertIntoRoomyLeaf(node: Node, at: nat, id: u64, ref: RowRef, ghost t: Tree, ghost root: bool,
                             ghost lo: int, ghost hi: int, ghost out: Node?)
    returns (ghost parts: seq<Tree>)
    requires t.Leaf? && t.node == node && Holds(t, out) && at <= |t.ents| < MAX_KEYS
    requires Balanced(t, 0, root) && Ordered(t, lo, hi) && lo <= id < hi
    requires !HasKey(t.ents, id) && Inserted(t.ents, id, ref) == InsertAt(t.ents, at, Entry(id, ref))
    modifies node`size, node.keys, node.refs
    ensures parts == [Leaf(node, Inserted(t.ents, id, ref))]
    ensures Placed(parts, NoSplit, 0, root, lo, hi)
    ensures HoldAll(parts, out) && Apart(parts) && FootprintOf(parts) == Footprint(t)
    ensures EntsOf(parts) == Inserted(t.ents, id, ref)
  {
    InsertedBounds(t.ents, id, ref, lo, hi);
    ghost var t' := AddToLeaf(node, at, id, ref, t.ents);
    SingleParts(t', out);
    parts := [t'];
  }

  /** A fresh id goes into a full leaf, which splits. */
  method InsertIntoFullLeaf(node: Node, at: nat, id: u64, ref: RowRef, ghost t: Tree, ghost lo: int, ghost hi: int,
                            ghost out: Node?)
    returns (res: SplitResult, ghost parts: seq<Tree>, ghost added: set<object>)
    requires t.Leaf? && t.node == node && Holds(t, out) && at <= |t.ents| == MAX_KEYS
    requires Ordered(t, lo, hi) && lo <= id < hi
    requires !HasKey(t.ents, id) && Inserted(t.ents, id, ref) == InsertAt(t.ents, at, Entry(id, ref))
    modifies node, node.keys, node.refs
    ensures res.Split? && Placed(parts, res, 0, false, lo, hi)
    ensures HoldAll(parts, out) && Apart(parts)
    ensures fresh(added) && FootprintOf(parts) <= Footprint(t) + added
    ensures First(parts[0]) == node && parts[0].node == node
    ensures EntsOf(parts) == Inserted(t.ents, id, ref)
  {
    InsertedBounds(t.ents, id, ref, lo, hi);
    var promoted, right;
    ghost var l, r;
    promoted, right, l, r := SplitLeaf(node, at, id, ref, t.ents);
    LeafHalves(l, r, Inserted(t.ents, id, ref), lo, hi);
    PairParts(l, r, out);
    res, parts, added := Split(promoted, right), [l, r], Own(right);
  }

  method InsertIntoLeaf(node: Node, id: u64, ref: RowRef, ghost t: Tree, ghost root: bool, ghost lo: int,
                        ghost hi: int, ghost out: Node?)
    returns (rc: int, res: SplitResult, ghost parts: seq<Tree>, ghost added: set<object>)
    requires t.Leaf? && t.node == node && Holds(t, out)
    requires Balanced(t, 0, root) && Ordered(t, lo, hi) && lo <= id < hi
    modifies node, node.keys, node.refs
    ensures rc == if HasKey(Ents(t), id) then 1 else 0
    ensures rc == 1 ==> parts == [t] && res == NoSplit && unchanged(Footprint(t))
    ensures Placed(parts, res, 0, root, lo, hi)
    ensures HoldAll(parts, out) && Apart(parts)
    ensures fresh(added) && FootprintOf(parts) <= Footprint(t) + added
    ensures First(parts[0]) == First(t) && parts[0].node == node
    ensures EntsOf(parts) == if rc == 0 then Inserted(Ents(t), id, ref) else Ents(t)
  {
    var at := LeafPosition(node, id);
    LeafPlaced(node, t.ents, at, id, ref);
    added := {};
    if at < node.size && node.keys[at] == id {
      rc, res, parts := 1, NoSplit, [t];
      SingleParts(t, out);
    } else if node.size < MAX_KEYS {
      rc, res := 0, NoSplit;
      parts := InsertIntoRoomyLeaf(node, at, id, ref, t, root, lo, hi, out);
    } else {
      rc := 0;
      res, parts, added := InsertIntoFullLeaf(node, at, id, ref, t, lo, hi, out);
    }
  }

  // ---- Internal nodes: one child replaced by one or two ----

  ghost function Splice(kids: seq<Tree>, i: nat, parts: seq<Tree>): seq<Tree>
    requires i < |kids|
  {
    kids[..i] + parts + kids[i + 1..]
  }

  ghost function SpliceKeys(keys: seq<u64>, i: nat, res: SplitResult): seq<u64>
    requires i <= |keys|
  {
    match res
    case NoSplit => keys
    case Split(p, _) => InsertAt(keys, i, p)
  }

  lemma SpliceEnts(kids: seq<Tree>, i: nat, parts: seq<Tree>)
    requires i < |kids|
    ensures EntsOf(Splice(kids, i, parts)) == EntsOf(kids[..i]) + EntsOf(parts) + EntsOf(kids[i + 1..])
  {
    EntsOfConcat(kids[..i] + parts, kids[i + 1..]);
    EntsOfConcat(kids[..i], parts);
  }

  lemma SpliceOrigin(kids: seq<Tree>, i: nat, parts: seq<Tree>, j: nat)
    requires i < |kids| && j < |Splice(kids, i, parts)|
    ensures Splice(kids, i, parts)[j] ==
      if j < i then kids[j] else if j < i + |parts| then parts[j - i] else kids[j - |parts| + 1]
    ensures i <= j < i + |parts| ==> Footprint(parts[j - i]) <= FootprintOf(parts)
  {
  }

  /** The bounds of the children after the splice, position by position. */
  lemma SpliceBounds(keys: seq<u64>, i: nat, res: SplitResult, lo: int, hi: int, j: nat)
    requires i <= |keys| && j <= |SpliceKeys(keys, i, res)|
    ensures var keys', d := SpliceKeys(keys, i, res), (if res.Split? then 1 else 0);
      && (j < i ==> Lo(keys', j, lo) == Lo(keys, j, lo) && Hi(keys', j, hi) == Hi(keys, j, hi))
      && (j > i + d ==> Lo(keys', j, lo) == Lo(keys, j - d, lo) && Hi(keys', j, hi) == Hi(keys, j - d, hi))
      && (j == i ==> Lo(keys', j, lo) == Lo(keys, i, lo))
      && (j == i + d ==> Hi(keys', j, hi) == Hi(keys, i, hi))
      && (res.Split? && j == i ==> Hi(keys', j, hi) == res.promoted)
      && (res.Split? && j == i + 1 ==> Lo(keys', j, lo) == res.promoted)
  {
  }

  lemma SpliceKeysUp(keys: seq<u64>, i: nat, res: SplitResult, lo: int, hi: int)
    requires i <= |keys| && StrictlyUp(keys) && forall k :: 0 <= k < |keys| ==> lo <= keys[k] < hi
    requires res.Split? ==> Lo(keys, i, lo) < res.promoted < Hi(keys, i, hi)
    ensures var keys' := SpliceKeys(keys, i, res);
      StrictlyUp(keys') && forall k :: 0 <= k < |keys'| ==> lo <= keys'[k] < hi
  {
  }

  /** Each child and its slot: whether a separator stands left of it, and its two bounds. */
  ghost predicate Slots(P: (Tree, bool, int, int) -> bool, keys: seq<u64>, kids: seq<Tree>, lo: int, hi: int) {
    && |kids| == |keys| + 1
    && forall j :: 0 <= j < |kids| ==> P(kids[j], j > 0, Lo(keys, j, lo), Hi(keys, j, hi))
  }

  ghost function InSlot(): (Tree, bool, int, int) -> bool {
    (k: Tree, inner: bool, lo: int, hi: int) => Ordered(k, lo, hi) && (inner ==> StartsAt(k, lo))
  }

  lemma OrderedBySlots(t: Tree, lo: int, hi: int)
    requires t.Inner?
    ensures Ordered(t, lo, hi) <==>
      && Slots(InSlot(), t.keys, t.kids, lo, hi)
      && StrictlyUp(t.keys) && forall k :: 0 <= k < |t.keys| ==> lo <= t.keys[k] < hi
  {
    if Slots(InSlot(), t.keys, t.kids, lo, hi) {
      forall j | 0 <= j < |t.kids|
        ensures Ordered(t.kids[j], Lo(t.keys, j, lo), Hi(t.keys, j, hi))
        ensures j > 0 ==> StartsAt(t.kids[j], t.keys[j - 1])
      {
        assert InSlot()(t.kids[j], j > 0, Lo(t.keys, j, lo), Hi(t.keys, j, hi));
      }
    }
  }

  lemma SpliceSlots(P: (Tree, bool, int, int) -> bool, keys: seq<u64>, kids: seq<Tree>, i: nat, parts: seq<Tree>,
                    res: SplitResult, lo: int, hi: int)
    requires Slots(P, keys, kids, lo, hi) && i < |kids|
    requires res.NoSplit? ==> |parts| == 1 && P(parts[0], i > 0, Lo(keys, i, lo), Hi(keys, i, hi))
    requires res.Split? ==> (|parts| == 2
      && P(parts[0], i > 0, Lo(keys, i, lo), res.promoted) && P(parts[1], true, res.promoted, Hi(keys, i, hi)))
    ensures Slots(P, SpliceKeys(keys, i, res), Splice(kids, i, parts), lo, hi)
  {
    var keys', kids' := SpliceKeys(keys, i, res), Splice(kids, i, parts);
    forall j | 0 <= j < |kids'| ensures P(kids'[j], j > 0, Lo(keys', j, lo), Hi(keys', j, hi)) {
      SpliceOrigin(kids, i, parts, j);
      SpliceBounds(keys, i, res, lo, hi, j);
    }
  }

  /** The order survives when the parts that replace child i fit its bounds and keep its smallest key. */
  lemma SpliceOrdered(t: Tree, i: nat, parts: seq<Tree>, res: SplitResult, lo: int, hi: int)
    requires t.Inner? && Ordered(t, lo, hi) && i < |t.kids|
    requires PlacedInOrder(parts, res, Lo(t.keys, i, lo), Hi(t.keys, i, hi))
    requires i > 0 ==> StartsAt(parts[0], t.keys[i - 1])
    ensures Ordered(Inner(t.node, SpliceKeys(t.keys, i, res), Splice(t.kids, i, parts)), lo, hi)
  {
    OrderedBySlots(t, lo, hi);
    SpliceSlots(InSlot(), t.keys, t.kids, i, parts, res, lo, hi);
    SpliceKeysUp(t.keys, i, res, lo, hi);
    OrderedBySlots(Inner(t.node, SpliceKeys(t.keys, i, res), Splice(t.kids, i, parts)), lo, hi);
  }

  lemma SpliceBalanced(kids: seq<Tree>, i: nat, parts: seq<Tree>, h: nat)
    requires i < |kids|
    requires forall j :: 0 <= j < |kids| ==> Balanced(kids[j], h, false)
    requires forall j :: 0 <= j < |parts| ==> Balanced(parts[j], h, false)
    ensures forall j :: 0 <= j < |Splice(kids, i, parts)| ==> Balanced(Splice(kids, i, parts)[j], h, false)
  {
  }

  lemma SpliceAfter(kids: seq<Tree>, i: nat, parts: seq<Tree>, out: Node?, j: nat)
    requires i < |kids| && |parts| > 0 && First(parts[0]) == First(kids[i])
    requires j < |Splice(kids, i, parts)|
    ensures After(Splice(kids, i, parts), j, out) ==
      if j < i then After(kids, j, out)
      else if j < i + |parts| then After(parts, j - i, After(kids, i, out))
      else After(kids, j - |parts| + 1, out)
  {
    if j + 1 < |Splice(kids, i, parts)| {
      SpliceOrigin(kids, i, parts, j + 1);
    }
  }

  /** The leaf chain runs through the replaced child when its first leaf and its end stay the same. */
  lemma SpliceHold(kids: seq<Tree>, i: nat, parts: seq<Tree>, out: Node?)
    requires i < |kids| && |parts| > 0
    requires forall j :: 0 <= j < |kids| && j != i ==> Holds(kids[j], After(kids, j, out))
    requires HoldAll(parts, After(kids, i, out)) && First(parts[0]) == First(kids[i])
    ensures HoldAll(Splice(kids, i, parts), out)
  {
    var s := Splice(kids, i, parts);
    forall j | 0 <= j < |s| ensures Holds(s[j], After(s, j, out)) {
      SpliceOrigin(kids, i, parts, j);
      SpliceAfter(kids, i, parts, out, j);
    }
  }

  lemma SpliceApart(kids: seq<Tree>, i: nat, parts: seq<Tree>)
    requires i < |kids| && Apart(kids) && Apart(parts)
    requires forall j :: 0 <= j < |kids| && j != i ==> Footprint(kids[j]) !! FootprintOf(parts)
    ensures Apart(Splice(kids, i, parts))
    ensures FootprintOf(Splice(kids, i, parts)) <= FootprintOf(kids) + FootprintOf(parts)
  {
    var s, d := Splice(kids, i, parts), |parts| - 1;
    forall j | 0 <= j < |s|
      ensures Separate(s[j]) && Footprint(s[j]) <= FootprintOf(kids) + FootprintOf(parts)
    {
      SpliceOrigin(kids, i, parts, j);
    }
    forall j, k | 0 <= j < k < |s| ensures Footprint(s[j]) !! Footprint(s[k]) {
      SpliceOrigin(kids, i, parts, j);
      SpliceOrigin(kids, i, parts, k);
    }
  }

  /** A fresh id that goes right of an existing smallest key leaves that key the smallest. */
  lemma InsertedStarts(s: seq<Entry>, k: u64, id: u64, ref: RowRef)
    requires s != [] && s[0].key == k && k <= id && !HasKey(s, id)
    ensures Inserted(s, id, ref)[0] == s[0]
  {
    assert s[0].key != id;
  }

  lemma SiblingsApart(kids: seq<Tree>, i: nat, parts: seq<Tree>, foot: set<object>, added: set<object>)
    requires i < |kids| && Apart(kids) && foot == FootprintOf(kids) && foot !! added
    requires FootprintOf(parts) <= Footprint(kids[i]) + added
    ensures forall j :: 0 <= j < |kids| && j != i ==> Footprint(kids[j]) !! FootprintOf(parts)
  {
    forall j | 0 <= j < |kids| && j != i ensures Footprint(kids[j]) !! FootprintOf(parts) {
      assert Footprint(kids[j]) <= foot;
      assert Footprint(kids[j]) !! Footprint(kids[i]);
    }
  }

  /** Recursion into child i, seen from the row of children. */
  method InsertIntoChild(child: Node, id: u64, ref: RowRef, ghost kids: seq<Tree>, ghost i: nat, ghost h: nat,
                         ghost lo: int, ghost hi: int, ghost out: Node?, ghost foot: set<object>)
    returns (rc: int, res: SplitResult, ghost parts: seq<Tree>, ghost added: set<object>)
    requires i < |kids| && kids[i].node == child && HoldAll(kids, out) && Apart(kids) && foot == FootprintOf(kids)
    requires Balanced(kids[i], h, false) && Ordered(kids[i], lo, hi) && lo <= id < hi
    modifies foot
    ensures rc == if HasKey(Ents(kids[i]), id) then 1 else 0
    ensures rc == 1 ==> res == NoSplit && unchanged(foot)
    ensures rc == 0 ==> Placed(parts, res, h, false, lo, hi)
    ensures rc == 0 ==> HoldAll(Splice(kids, i, parts), out) && Apart(Splice(kids, i, parts))
    ensures rc == 0 ==> First(parts[0]) == First(kids[i]) && parts[0].node == child
    ensures rc == 0 ==> EntsOf(parts) == Inserted(Ents(kids[i]), id, ref)
    ensures rc == 0 ==> FootprintOf(Splice(kids, i, parts)) <= foot + added
    ensures fresh(added)
    decreases h, 3
  {
    rc, res, parts, added :=
      InsertRecursive(child, id, ref, kids[i], h, false, lo, hi, After(kids, i, out), Footprint(kids[i]));
    if rc == 0 {
      forall j | 0 <= j < |kids| && j != i ensures Holds(kids[j], After(kids, j, out)) {
        assert Footprint(kids[j]) <= foot && Footprint(kids[j]) !! Footprint(kids[i]);
        assert forall o :: o in Footprint(kids[j]) ==> unchanged(o);
        assert old(Holds(kids[j], After(kids, j, out)));
      }
      SiblingsApart(kids, i, parts, foot, added);
      SpliceHold(kids, i, parts, out);
      SpliceApart(kids, i, parts);
    }
  }

  method InsertRecursive(node: Node, id: u64, ref: RowRef, ghost t: Tree, ghost h: nat, ghost root: bool,
                         ghost lo: int, ghost hi: int, ghost out: Node?, ghost foot: set<object>)
    returns (rc: int, res: SplitResult, ghost parts: seq<Tree>, ghost added: set<object>)
    requires t.node == node && Holds(t, out) && Separate(t) && foot == Footprint(t)
    requires Balanced(t, h, root) && Ordered(t, lo, hi) && lo <= id < hi
    modifies foot
    ensures rc == if HasKey(Ents(t), id) then 1 else 0
    ensures rc == 1 ==> parts == [t] && res == NoSplit && unchanged(foot)
    ensures Placed(parts, res, h, root, lo, hi)
    ensures HoldAll(parts, out) && Apart(parts)
    ensures fresh(added) && FootprintOf(parts) <= foot + added
    ensures First(parts[0]) == First(t) && parts[0].node == node
    ensures EntsOf(parts) == if rc == 0 then Inserted(Ents(t), id, ref) else Ents(t)
    decreases h, 2
  {
    if node.isLeaf {
      rc, res, parts, added := InsertIntoLeaf(node, id, ref, t, root, lo, hi, out);
    } else {
      rc, res, parts, added := InsertIntoInner(node, id, ref, t, h, root, lo, hi, out, foot);
    }
  }

  // ---- Internal nodes: the update of the node itself ----

  /** big is t with child i replaced by itself and a new right neighbour, not yet cut down to size. */
  ghost predicate Grown(t: Tree, i: nat, p: u64, right: Node, big: Tree) {
    match big
    case Leaf(_, _) => false
    case Inner(node, keys, kids) =>
      && t.Inner? && i <= |t.keys| && |t.kids| == |t.keys| + 1 && |kids| == |t.kids| + 1
      && node == t.node && keys == InsertAt(t.keys, i, p)
      && (forall j :: 0 <= j <= i ==> kids[j].node == t.kids[j].node)
      && kids[i + 1].node == right
      && (forall j :: i + 1 < j < |kids| ==> kids[j].node == t.kids[j - 1].node)
  }

  method GrowInner(node: Node, i: nat, p: u64, right: Node, ghost t: Tree, ghost big: Tree)
    requires t.node == node && NodeHolds(t) && Grown(t, i, p, right, big) && node.size < MAX_KEYS
    modifies node`size, node.keys, node.children
    ensures NodeHolds(big)
  {
    ghost var children := node.children[..node.size + 1];
    InnerInsertAt(node, i, p, right);
    forall j | 0 <= j < |big.kids| ensures node.children[j] == big.kids[j].node {
      assert node.children[j] == InsertAt(children, i + 1, right)[j];
    }
  }

  method SplitInner(node: Node, i: nat, p: u64, right: Node, ghost t: Tree, ghost big: Tree)
    returns (promoted: u64, sibling: Node, ghost l: Tree, ghost r: Tree)
    requires t.node == node && NodeHolds(t) && Grown(t, i, p, right, big) && node.size == MAX_KEYS
    modifies node`size, node.keys, node.children
    ensures |big.keys| == 32 && |big.kids| == 33 && promoted == big.keys[16]
    ensures l == Inner(node, big.keys[..16], big.kids[..17]) && NodeHolds(l)
    ensures r == Inner(sibling, big.keys[17..], big.kids[17..]) && NodeHolds(r) && fresh(Own(sibling))
  {
    ghost var children := node.children[..32];
    assert t.keys == node.keys[..31];
    promoted, sibling := InnerSplit(node, i, p, right);
    ghost var cut := InsertAt(children, i + 1, right);
    assert forall j :: 0 <= j < 33 ==> cut[j] == big.kids[j].node;
    assert forall j :: 0 <= j < 17 ==> node.children[j] == cut[j];
    assert forall j :: 0 <= j < 16 ==> sibling.children[j] == cut[17 + j];
    assert big.keys == node.keys[..16] + [promoted] + sibling.keys[..15];
    l, r := Inner(node, big.keys[..16], big.kids[..17]), Inner(sibling, big.keys[17..], big.kids[17..]);
    assert big.keys[..16] == node.keys[..16] && big.keys[17..] == sibling.keys[..15];
  }

  lemma HalfSlots(P: (Tree, bool, int, int) -> bool, keys: seq<u64>, kids: seq<Tree>, m: nat, lo: int, hi: int)
    requires Slots(P, keys, kids, lo, hi) && m < |keys|
    requires forall k, l, r :: P(k, true, l, r) ==> P(k, false, l, r)
    ensures Slots(P, keys[..m], kids[..m + 1], lo, keys[m])
    ensures Slots(P, keys[m + 1..], kids[m + 1..], keys[m], hi)
  {
    var lk, rk := kids[..m + 1], kids[m + 1..];
    forall j | 0 <= j < |lk| ensures P(lk[j], j > 0, Lo(keys[..m], j, lo), Hi(keys[..m], j, keys[m])) {
      assert P(kids[j], j > 0, Lo(keys, j, lo), Hi(keys, j, hi));
    }
    forall j | 0 <= j < |rk| ensures P(rk[j], j > 0, Lo(keys[m + 1..], j, keys[m]), Hi(keys[m + 1..], j, hi)) {
      var k := m + 1 + j;
      assert P(kids[k], k > 0, Lo(keys, k, lo), Hi(keys, k, hi));
    }
  }

  /** Cutting an overfull ordered internal node at its middle separator, which moves up. */
  lemma InnerHalves(big: Tree, l: Tree, r: Tree, lo: int, hi: int)
    requires big.Inner? && |big.keys| == 32 && Ordered(big, lo, hi)
    requires l.Inner? && l.keys == big.keys[..16] && l.kids == big.kids[..17]
    requires r.Inner? && r.keys == big.keys[17..] && r.kids == big.kids[17..]
    ensures PlacedInOrder([l, r], Split(big.keys[16], r.node), lo, hi)
  {
    var p := big.keys[16];
    OrderedBySlots(big, lo, hi);
    HalfSlots(InSlot(), big.keys, big.kids, 16, lo, hi);
    assert lo <= big.keys[0] < p < hi;
    OrderedBySlots(l, lo, p);
    OrderedBySlots(r, p, hi);
    assert StartsAt(big.kids[17], p) && Ents(r) == Ents(big.kids[17]) + EntsOf(r.kids[1..]);
  }

  lemma InnerHalvesBalanced(big: Tree, l: Tree, r: Tree, h: nat)
    requires big.Inner? && |big.keys| == 32 && |big.kids| == 33 && h > 0
    requires forall j :: 0 <= j < |big.kids| ==> Balanced(big.kids[j], h - 1, false)
    requires l.Inner? && l.keys == big.keys[..16] && l.kids == big.kids[..17]
    requires r.Inner? && r.keys == big.keys[17..] && r.kids == big.kids[17..]
    ensures Balanced(l, h, false) && Balanced(r, h, false)
  {
  }

  lemma InnerHalvesEnts(big: Tree, l: Tree, r: Tree)
    requires big.Inner? && |big.kids| == 33
    requires l.Inner? && l.kids == big.kids[..17] && r.Inner? && r.kids == big.kids[17..]
    ensures EntsOf([l, r]) == Ents(big) && First(l) == First(big) && First(r) == First(big.kids[17])
  {
    assert big.kids == l.kids + r.kids;
    EntsOfConcat(l.kids, r.kids);
    PairEnts(l, r);
  }

  /** The two halves on the heap, once both nodes have been written. */
  lemma InnerHalvesHold(big: Tree, l: Tree, r: Tree, out: Node?)
    requires big.Inner? && |big.kids| == 33 && HoldAll(big.kids, out)
    requires l.Inner? && l.kids == big.kids[..17] && r.Inner? && r.kids == big.kids[17..]
    requires NodeHolds(l) && NodeHolds(r)
    ensures Holds(l, First(r)) && Holds(r, out)
  {
    HalvesHold(big.kids, 17, out);
  }

  lemma InnerHalvesApart(big: Tree, l: Tree, r: Tree, kfoot: set<object>, mine: set<object>, added: set<object>)
    requires big.Inner? && |big.kids| == 33 && Apart(big.kids) && kfoot == FootprintOf(big.kids)
    requires l.Inner? && l.kids == big.kids[..17] && r.Inner? && r.kids == big.kids[17..]
    requires mine == Own(l.node) && added == Own(r.node)
    requires mine !! added && mine !! kfoot && added !! kfoot
    ensures Separate(l) && Separate(r) && Footprint(l) !! Footprint(r)
    ensures Footprint(l) + Footprint(r) == mine + kfoot + added
  {
    HalvesApart(big.kids, 17);
  }

  lemma HalvesHold(ks: seq<Tree>, m: nat, out: Node?)
    requires m < |ks| && HoldAll(ks, out)
    ensures HoldAll(ks[..m], First(ks[m])) && HoldAll(ks[m..], out)
  {
    forall j | 0 <= j < m ensures Holds(ks[..m][j], After(ks[..m], j, First(ks[m]))) {
      assert Holds(ks[j], After(ks, j, out));
    }
    forall j | 0 <= j < |ks[m..]| ensures Holds(ks[m..][j], After(ks[m..], j, out)) {
      assert Holds(ks[m + j], After(ks, m + j, out));
    }
  }

  lemma HalvesApart(ks: seq<Tree>, m: nat)
    requires m < |ks| && Apart(ks)
    ensures Apart(ks[..m]) && Apart(ks[m..]) && FootprintOf(ks[..m]) !! FootprintOf(ks[m..])
    ensures FootprintOf(ks[..m]) + FootprintOf(ks[m..]) == FootprintOf(ks)
  {
    assert ks == ks[..m] + ks[m..];
  }

  /** big, the node with its new children, is in order; only its size may still be one too large. */
  ghost predicate Refitted(big: Tree, h: nat, lo: int, hi: int) {
    match big
    case Leaf(_, _) => false
    case Inner(_, keys, kids) =>
      && h > 0 && |kids| == |keys| + 1 && Ordered(big, lo, hi)
      && forall j :: 0 <= j < |kids| ==> Balanced(kids[j], h - 1, false)
  }

  lemma RefitStarts(k: Tree, parts: seq<Tree>, h: nat, s: int, id: u64, ref: RowRef)
    requires Balanced(k, h, false) && StartsAt(k, s) && s <= id && !HasKey(Ents(k), id)
    requires |parts| > 0 && Balanced(parts[0], h, false) && EntsOf(parts) == Inserted(Ents(k), id, ref)
    ensures StartsAt(parts[0], s)
  {
    NonRootNotEmpty(parts[0], h);
    InsertedStarts(Ents(k), s, id, ref);
    assert Ents(parts[0])[0] == EntsOf(parts)[0];
  }

  lemma RefitEnts(t: Tree, i: nat, parts: seq<Tree>, keys: seq<u64>, lo: int, hi: int, id: u64, ref: RowRef)
    requires t.Inner? && Ordered(t, lo, hi) && i < |t.kids| && |parts| > 0
    requires Lo(t.keys, i, lo) <= id < Hi(t.keys, i, hi)
    requires EntsOf(parts) == Inserted(Ents(t.kids[i]), id, ref) && First(parts[0]) == First(t.kids[i])
    ensures var big := Inner(t.node, keys, Splice(t.kids, i, parts));
      Ents(big) == Inserted(Ents(t), id, ref) && First(big) == First(t)
  {
    SpliceEnts(t.kids, i, parts);
    Descend(t, i, lo, hi, id, ref);
    SpliceOrigin(t.kids, i, parts, 0);
  }

  lemma PartsBalanced(parts: seq<Tree>, res: SplitResult, h: nat, lo: int, hi: int)
    requires Placed(parts, res, h, false, lo, hi)
    ensures |parts| > 0 && PlacedInOrder(parts, res, lo, hi)
    ensures forall j :: 0 <= j < |parts| ==> Balanced(parts[j], h, false)
  {
  }

  lemma RefitBalanced(t: Tree, i: nat, parts: seq<Tree>, h: nat, root: bool)
    requires t.Inner? && Balanced(t, h, root) && i < |t.kids|
    requires h > 0 && forall j :: 0 <= j < |parts| ==> Balanced(parts[j], h - 1, false)
    ensures forall j :: 0 <= j < |Splice(t.kids, i, parts)| ==> Balanced(Splice(t.kids, i, parts)[j], h - 1, false)
  {
    SpliceBalanced(t.kids, i, parts, h - 1);
  }

  lemma RefitOrder(t: Tree, i: nat, parts: seq<Tree>, res: SplitResult, h: nat, root: bool, lo: int, hi: int,
                   id: u64, ref: RowRef)
    requires t.Inner? && Balanced(t, h, root) && Ordered(t, lo, hi) && i < |t.kids|
    requires Lo(t.keys, i, lo) <= id < Hi(t.keys, i, hi) && !HasKey(Ents(t.kids[i]), id)
    requires Placed(parts, res, h - 1, false, Lo(t.keys, i, lo), Hi(t.keys, i, hi))
    requires EntsOf(parts) == Inserted(Ents(t.kids[i]), id, ref)
    ensures Refitted(Inner(t.node, SpliceKeys(t.keys, i, res), Splice(t.kids, i, parts)), h, lo, hi)
  {
    PartsBalanced(parts, res, h - 1, Lo(t.keys, i, lo), Hi(t.keys, i, hi));
    if i > 0 {
      assert StartsAt(t.kids[i], t.keys[i - 1]);
      RefitStarts(t.kids[i], parts, h - 1, t.keys[i - 1], id, ref);
    }
    SpliceOrdered(t, i, parts, res, lo, hi);
    RefitBalanced(t, i, parts, h, root);
  }

  lemma NonRootNotEmpty(t: Tree, h: nat)
    requires Balanced(t, h, false)
    ensures Ents(t) != []
  {
    NonRootSize(t, h);
    Pow16Positive(h + 1);
  }

  lemma SpliceSameNodes(t: Tree, i: nat, part: Tree)
    requires t.Inner? && i < |t.kids| && NodeHolds(t) && part.node == t.kids[i].node
    ensures NodeHolds(Inner(t.node, t.keys, Splice(t.kids, i, [part])))
  {
    assert forall j :: 0 <= j < |t.kids| ==> Splice(t.kids, i, [part])[j].node == t.kids[j].node;
  }

  lemma SpliceGrown(t: Tree, i: nat, parts: seq<Tree>, p: u64, right: Node)
    requires t.Inner? && |t.kids| == |t.keys| + 1 && i < |t.kids|
    requires |parts| == 2 && parts[0].node == t.kids[i].node && parts[1].node == right
    ensures Grown(t, i, p, right, Inner(t.node, InsertAt(t.keys, i, p), Splice(t.kids, i, parts)))
  {
  }

  lemma GrownBalanced(t: Tree, i: nat, p: u64, right: Node, big: Tree, h: nat, root: bool)
    requires Grown(t, i, p, right, big) && Balanced(t, h, root) && |t.keys| < MAX_KEYS
    requires forall j :: 0 <= j < |big.kids| ==> Balanced(big.kids[j], h - 1, false)
    ensures Balanced(big, h, root)
  {
  }

  /** The node takes the new child without splitting. */
  method InsertIntoRoomyInner(node: Node, i: nat, p: u64, right: Node, ghost t: Tree, ghost big: Tree, ghost h: nat,
                              ghost root: bool, ghost lo: int, ghost hi: int, ghost out: Node?,
                              ghost kfoot: set<object>, ghost mine: set<object>)
    returns (ghost parts: seq<Tree>)
    requires t.node == node && NodeHolds(t) && Grown(t, i, p, right, big) && node.size < MAX_KEYS
    requires Balanced(t, h, root) && Refitted(big, h, lo, hi)
    requires HoldAll(big.kids, out) && Apart(big.kids) && kfoot == FootprintOf(big.kids) && mine == Own(node)
    requires mine !! kfoot
    modifies node`size, node.keys, node.children
    ensures Placed(parts, NoSplit, h, root, lo, hi)
    ensures HoldAll(parts, out) && Apart(parts) && FootprintOf(parts) == mine + kfoot
    ensures parts == [big] && EntsOf(parts) == Ents(big)
  {
    GrownBalanced(t, i, p, right, big, h, root);
    GrowInner(node, i, p, right, t, big);
    assert unchanged(kfoot);
    assert old(HoldAll(big.kids, out));
    assert HoldAll(big.kids, out);
    SingleParts(big, out);
    parts := [big];
  }

  /** The node is full and splits: the two halves on the heap. */
  method SplitInnerTree(node: Node, i: nat, p: u64, right: Node, ghost t: Tree, ghost big: Tree, ghost out: Node?,
                        ghost kfoot: set<object>, ghost mine: set<object>)
    returns (promoted: u64, sibling: Node, ghost l: Tree, ghost r: Tree, ghost added: set<object>)
    requires t.node == node && NodeHolds(t) && Grown(t, i, p, right, big) && node.size == MAX_KEYS
    requires HoldAll(big.kids, out) && Apart(big.kids) && kfoot == FootprintOf(big.kids) && mine == Own(node)
    requires mine !! kfoot
    modifies node`size, node.keys, node.children
    ensures |big.keys| == 32 && |big.kids| == 33 && promoted == big.keys[16]
    ensures l == Inner(node, big.keys[..16], big.kids[..17]) && r == Inner(sibling, big.keys[17..], big.kids[17..])
    ensures Holds(l, First(r)) && Holds(r, out) && Separate(l) && Separate(r) && Footprint(l) !! Footprint(r)
    ensures fresh(added) && Footprint(l) + Footprint(r) == mine + kfoot + added
  {
    promoted, sibling, l, r := SplitInner(node, i, p, right, t, big);
    assert unchanged(kfoot);
    added := Own(sibling);
    assert mine !! added && kfoot !! added;
    assert old(HoldAll(big.kids, out));
    assert HoldAll(big.kids, out) && added == Own(r.node) && mine == Own(l.node);
    InnerHalvesHold(big, l, r, out);
    InnerHalvesApart(big, l, r, kfoot, mine, added);
  }

  method InsertIntoFullInner(node: Node, i: nat, p: u64, right: Node, ghost t: Tree, ghost big: Tree, ghost h: nat,
                             ghost lo: int, ghost hi: int, ghost out: Node?, ghost kfoot: set<object>,
                             ghost mine: set<object>)
    returns (res: SplitResult, ghost parts: seq<Tree>, ghost added: set<object>)
    requires t.node == node && NodeHolds(t) && Grown(t, i, p, right, big) && node.size == MAX_KEYS
    requires Refitted(big, h, lo, hi)
    requires HoldAll(big.kids, out) && Apart(big.kids) && kfoot == FootprintOf(big.kids) && mine == Own(node)
    requires mine !! kfoot
    modifies node`size, node.keys, node.children
    ensures res.Split? && Placed(parts, res, h, false, lo, hi)
    ensures HoldAll(parts, out) && Apart(parts)
    ensures fresh(added) && FootprintOf(parts) <= mine + kfoot + added
    ensures First(parts[0]) == First(big) && parts[0].node == node
    ensures EntsOf(parts) == Ents(big)
  {
    var promoted, sibling;
    ghost var l, r;
    promoted, sibling, l, r, added := SplitInnerTree(node, i, p, right, t, big, out, kfoot, mine);
    InnerHalvesBalanced(big, l, r, h);
    InnerHalves(big, l, r, lo, hi);
    InnerHalvesEnts(big, l, r);
    PairParts(l, r, out);
    res, parts := Split(promoted, sibling), [l, r];
  }

  /** The update of the node after its child has reported: nothing, a new child, or a split of its own. */
  method FinishInner(node: Node, i: nat, childRes: SplitResult, ghost t: Tree, ghost big: Tree, ghost h: nat,
                     ghost root: bool, ghost lo: int, ghost hi: int, ghost out: Node?, ghost kfoot: set<object>,
                     ghost mine: set<object>)
    returns (res: SplitResult, ghost parts: seq<Tree>, ghost added: set<object>)
    requires t.Inner? && t.node == node && NodeHolds(t) && Balanced(t, h, root) && Refitted(big, h, lo, hi)
    requires big.node == node
    requires childRes.NoSplit? ==> NodeHolds(big) && big.keys == t.keys
    requires childRes.Split? ==> Grown(t, i, childRes.promoted, childRes.right, big)
    requires HoldAll(big.kids, out) && Apart(big.kids) && kfoot == FootprintOf(big.kids) && mine == Own(node)
    requires mine !! kfoot
    modifies node`size, node.keys, node.children
    ensures Placed(parts, res, h, root, lo, hi)
    ensures HoldAll(parts, out) && Apart(parts)
    ensures fresh(added) && FootprintOf(parts) <= mine + kfoot + added
    ensures First(parts[0]) == First(big) && parts[0].node == node
    ensures EntsOf(parts) == Ents(big)
  {
    match childRes {
      case NoSplit =>
        res, parts, added := NoSplit, [big], {};
        SingleParts(big, out);
      case Split(p, right) =>
        if node.size < MAX_KEYS {
          res, added := NoSplit, {};
          parts := InsertIntoRoomyInner(node, i, p, right, t, big, h, root, lo, hi, out, kfoot, mine);
        } else {
          res, parts, added := InsertIntoFullInner(node, i, p, right, t, big, h, lo, hi, out, kfoot, mine);
        }
    }
  }

  lemma Chosen(node: Node, t: Tree, i: nat, lo: int, hi: int, id: u64)
    requires t.Inner? && t.node == node && NodeHolds(t) && Ordered(t, lo, hi) && lo <= id < hi && i <= node.size
    requires forall j :: 0 <= j < i ==> node.keys[j] <= id
    requires i < node.size ==> id < node.keys[i]
    ensures i < |t.kids| && node.children[i] == t.kids[i].node
    ensures Lo(t.keys, i, lo) <= id < Hi(t.keys, i, hi)
    ensures HasKey(Ents(t), id) <==> HasKey(Ents(t.kids[i]), id)
  {
    assert forall j :: 0 <= j < node.size ==> t.keys[j] == node.keys[j];
    Descend(t, i, lo, hi, id, 0);
  }

  /** The first half of an insertion below an internal node: choose the child and recurse. */
  method InsertBelow(node: Node, id: u64, ref: RowRef, ghost t: Tree, ghost h: nat, ghost lo: int, ghost hi: int,
                     ghost out: Node?, ghost kfoot: set<object>, ghost mine: set<object>)
    returns (rc: int, i: nat, res: SplitResult, ghost parts: seq<Tree>, ghost added: set<object>,
             ghost klo: int, ghost khi: int)
    requires t.Inner? && t.node == node && NodeHolds(t) && HoldAll(t.kids, out) && Apart(t.kids)
    requires kfoot == FootprintOf(t.kids) && mine == Own(node) && mine !! kfoot
    requires h > 0 && (forall j :: 0 <= j < |t.kids| ==> Balanced(t.kids[j], h - 1, false))
    requires Ordered(t, lo, hi) && lo <= id < hi
    modifies kfoot
    ensures rc == if HasKey(Ents(t), id) then 1 else 0
    ensures rc == 1 ==> unchanged(kfoot)
    ensures i < |t.kids| && Lo(t.keys, i, lo) == klo <= id < khi == Hi(t.keys, i, hi)
    ensures NodeHolds(t) && unchanged(mine)
    ensures rc == 0 ==> !HasKey(Ents(t.kids[i]), id)
    ensures rc == 0 ==> Placed(parts, res, h - 1, false, klo, khi)
    ensures rc == 0 ==> HoldAll(Splice(t.kids, i, parts), out) && Apart(Splice(t.kids, i, parts))
    ensures rc == 0 ==> First(parts[0]) == First(t.kids[i]) && parts[0].node == t.kids[i].node
    ensures rc == 0 ==> EntsOf(parts) == Inserted(Ents(t.kids[i]), id, ref)
    ensures rc == 0 ==> FootprintOf(Splice(t.kids, i, parts)) <= kfoot + added
    ensures fresh(added)
    decreases h, 0
  {
    i := ChildIndex(node, id);
    Chosen(node, t, i, lo, hi, id);
    klo, khi := Lo(t.keys, i, lo), Hi(t.keys, i, hi);
    rc, res, parts, added := InsertIntoChild(node.children[i], id, ref, t.kids, i, h - 1, klo, khi, out, kfoot);
    assert unchanged(mine);
  }

  method InsertIntoInner(node: Node, id: u64, ref: RowRef, ghost t: Tree, ghost h: nat, ghost root: bool,
                         ghost lo: int, ghost hi: int, ghost out: Node?, ghost foot: set<object>)
    returns (rc: int, res: SplitResult, ghost parts: seq<Tree>, ghost added: set<object>)
    requires t.Inner? && t.node == node && Holds(t, out) && Separate(t) && foot == Footprint(t)
    requires Balanced(t, h, root) && Ordered(t, lo, hi) && lo <= id < hi
    modifies foot
    ensures rc == if HasKey(Ents(t), id) then 1 else 0
    ensures rc == 1 ==> parts == [t] && res == NoSplit && unchanged(foot)
    ensures Placed(parts, res, h, root, lo, hi)
    ensures HoldAll(parts, out) && Apart(parts)
    ensures fresh(added) && FootprintOf(parts) <= foot + added
    ensures First(parts[0]) == First(t) && parts[0].node == node
    ensures EntsOf(parts) == if rc == 0 then Inserted(Ents(t), id, ref) else Ents(t)
    decreases h, 1
  {
    var i, childRes;
    ghost var kparts, kadded, klo, khi;
    ghost var mine, kfoot := Own(node), FootprintOf(t.kids);
    rc, i, childRes, kparts, kadded, klo, khi := InsertBelow(node, id, ref, t, h, lo, hi, out, kfoot, mine);
    if rc == 1 {
      assert old(Holds(t, out));
      SingleParts(t, out);
      res, parts, added := NoSplit, [t], {};
    } else {
      ghost var more;
      res, parts, more := AfterChild(node, i, childRes, t, kparts, h, root, lo, hi, out, id, ref, foot, kadded);
      added := set o | o in kadded + more && fresh(o);
      assert forall o :: o in kadded ==> o in added;
      assert forall o :: o in more ==> o in added;
    }
  }

  /** The rest of an insertion below an internal node, once the child is done. */
  method AfterChild(node: Node, i: nat, childRes: SplitResult, ghost t: Tree, ghost kparts: seq<Tree>, ghost h: nat,
                    ghost root: bool, ghost lo: int, ghost hi: int, ghost out: Node?, ghost id: u64,
                    ghost ref: RowRef, ghost foot: set<object>, ghost kadded: set<object>)
    returns (res: SplitResult, ghost parts: seq<Tree>, ghost more: set<object>)
    requires t.Inner? && t.node == node && NodeHolds(t) && Balanced(t, h, root) && Ordered(t, lo, hi) && i < |t.kids|
    requires foot == Own(node) + FootprintOf(t.kids) && Own(node) !! FootprintOf(t.kids) && foot !! kadded
    requires Lo(t.keys, i, lo) <= id < Hi(t.keys, i, hi) && !HasKey(Ents(t.kids[i]), id)
    requires Placed(kparts, childRes, h - 1, false, Lo(t.keys, i, lo), Hi(t.keys, i, hi))
    requires HoldAll(Splice(t.kids, i, kparts), out) && Apart(Splice(t.kids, i, kparts))
    requires First(kparts[0]) == First(t.kids[i]) && kparts[0].node == t.kids[i].node
    requires EntsOf(kparts) == Inserted(Ents(t.kids[i]), id, ref)
    requires FootprintOf(Splice(t.kids, i, kparts)) <= FootprintOf(t.kids) + kadded
    modifies node`size, node.keys, node.children
    ensures Placed(parts, res, h, root, lo, hi)
    ensures HoldAll(parts, out) && Apart(parts)
    ensures fresh(more) && FootprintOf(parts) <= foot + (kadded + more)
    ensures First(parts[0]) == First(t) && parts[0].node == node
    ensures EntsOf(parts) == Inserted(Ents(t), id, ref)
  {
    ghost var big := Inner(node, SpliceKeys(t.keys, i, childRes), Splice(t.kids, i, kparts));
    RefitOrder(t, i, kparts, childRes, h, root, lo, hi, id, ref);
    RefitEnts(t, i, kparts, big.keys, lo, hi, id, ref);
    if childRes.Split? {
      SpliceGrown(t, i, kparts, childRes.promoted, childRes.right);
    } else {
      assert kparts == [kparts[0]];
      SpliceSameNodes(t, i, kparts[0]);
    }
    ghost var mine, kfoot := Own(node), FootprintOf(big.kids);
    assert mine !! kfoot;
    res, parts, more := FinishInner(node, i, childRes, t, big, h, root, lo, hi, out, kfoot, mine);
  }
}
