/**
  The shape of the B+ tree: heap nodes, the tree value they represent, and what
  that value satisfies.
 */
module BPlusTree {
  import opened Entries
  import opened Sequences

  const MAX_KEYS: nat := 31

  /** One node. A leaf uses refs and next, an internal node uses children. */
  class Node {
    const isLeaf: bool
    var size: nat
    const keys: array<u64>
    const refs: array<RowRef>
    var next: Node?
    const children: array<Node?>

    constructor (isLeaf: bool)
      ensures this.isLeaf == isLeaf && size == 0 && next == null
      ensures WellSized(this)
      ensures fresh(Own(this))
    {
      this.isLeaf := isLeaf;
      size, next := 0, null;
      keys := new u64[MAX_KEYS];
      refs := new RowRef[MAX_KEYS];
      children := new Node?[MAX_KEYS + 1];
    }
  }

  ghost predicate WellSized(n: Node) {
    n.keys.Length == MAX_KEYS && n.refs.Length == MAX_KEYS && n.children.Length == MAX_KEYS + 1
  }

  /** The objects that make up one node. */
  ghost function Own(n: Node): set<object> {
    {n, n.keys, n.refs, n.children}
  }

  /** The tree a node represents, with the node object at every position. */
  datatype Tree =
    | Leaf(node: Node, ents: seq<Entry>)
    | Inner(node: Node, keys: seq<u64>, kids: seq<Tree>)

  /** All entries, left to right. */
  ghost function Ents(t: Tree): seq<Entry> {
    match t
    case Leaf(_, ents) => ents
    case Inner(_, _, kids) => EntsOf(kids)
  }

  ghost function EntsOf(ks: seq<Tree>): seq<Entry> {
    if ks == [] then [] else Ents(ks[0]) + EntsOf(ks[1..])
  }

  ghost function Footprint(t: Tree): (f: set<object>)
    ensures Own(t.node) <= f
  {
    match t
    case Leaf(n, _) => Own(n)
    case Inner(n, _, kids) => Own(n) + FootprintOf(kids)
  }

  ghost function FootprintOf(ks: seq<Tree>): set<object> {
    set i, o | 0 <= i < |ks| && o in Footprint(ks[i]) :: o
  }

  /** No object belongs to two nodes. */
  ghost predicate Separate(t: Tree) {
    t.Inner? ==> Own(t.node) !! FootprintOf(t.kids) && Apart(t.kids)
  }

  ghost predicate Apart(ks: seq<Tree>) {
    && (forall i, j :: 0 <= i < j < |ks| ==> Footprint(ks[i]) !! Footprint(ks[j]))
    && (forall i :: 0 <= i < |ks| ==> Separate(ks[i]))
  }

  /** Every leaf at depth h, every node within its occupancy bounds; only the root may be smaller. */
  ghost predicate Balanced(t: Tree, h: nat, root: bool) {
    match t
    case Leaf(_, ents) => h == 0 && |ents| <= MAX_KEYS && (root || 16 <= |ents|)
    case Inner(_, keys, kids) =>
      && h > 0
      && |kids| == |keys| + 1
      && (if root then 1 else 15) <= |keys| <= MAX_KEYS
      && (forall i :: 0 <= i < |kids| ==> Balanced(kids[i], h - 1, false))
  }

  /** The bounds that the separators put on the i-th child. */
  ghost function Lo(keys: seq<u64>, i: nat, lo: int): int
    requires i <= |keys|
  {
    if i == 0 then lo else keys[i - 1]
  }

  ghost function Hi(keys: seq<u64>, i: nat, hi: int): int
    requires i <= |keys|
  {
    if i == |keys| then hi else keys[i]
  }

  ghost predicate StrictlyUp(keys: seq<u64>) {
    forall i, j :: 0 <= i < j < |keys| ==> keys[i] < keys[j]
  }

  /** k is the smallest key of t. */
  ghost predicate StartsAt(t: Tree, k: int) {
    Ents(t) != [] && Ents(t)[0].key == k
  }

  /**
    All keys lie in [lo, hi), every child between its separators, and each separator
    is the smallest key of the subtree on its right.
   */
  ghost predicate Ordered(t: Tree, lo: int, hi: int) {
    match t
    case Leaf(_, ents) => Ascending(ents) && AllFrom(lo, ents) && AllBelow(ents, hi)
    case Inner(_, keys, kids) =>
      && |kids| == |keys| + 1
      && StrictlyUp(keys)
      && (forall i :: 0 <= i < |keys| ==> lo <= keys[i] < hi)
      && (forall i :: 0 <= i < |kids| ==> Ordered(kids[i], Lo(keys, i, lo), Hi(keys, i, hi)))
      && (forall i :: 0 < i < |kids| ==> StartsAt(kids[i], keys[i - 1]))
  }

  /** The leftmost leaf node. */
  ghost function First(t: Tree): Node {
    if t.Inner? && t.kids != [] then First(t.kids[0]) else t.node
  }

  /** The leaf node that follows child i: the next child's first leaf, or the outer one. */
  ghost function After(kids: seq<Tree>, i: nat, out: Node?): Node? {
    if i + 1 < |kids| then First(kids[i + 1]) else out
  }

  ghost predicate NodeHolds(t: Tree)
    reads Own(t.node)
  {
    match t
    case Leaf(n, ents) =>
      && WellSized(n) && n.isLeaf
      && n.size == |ents| <= MAX_KEYS
      && (forall i :: 0 <= i < |ents| ==> n.keys[i] == ents[i].key && n.refs[i] == ents[i].ref)
    case Inner(n, keys, kids) =>
      && WellSized(n) && !n.isLeaf
      && n.size == |keys| <= MAX_KEYS
      && |kids| == |keys| + 1
      && n.keys[..n.size] == keys
      && (forall i :: 0 <= i < |kids| ==> n.children[i] == kids[i].node)
  }

  /**
    The heap represents t, and the leaves form one chain from First(t) whose last
    next pointer is out.
   */
  ghost predicate Holds(t: Tree, out: Node?)
    reads Footprint(t)
  {
    && NodeHolds(t)
    && match t
       case Leaf(n, _) => n.next == out
       case Inner(_, _, kids) => HoldAll(kids, out)
  }

  /** The heap represents neighbouring trees whose leaves form one chain that ends with out. */
  ghost predicate HoldAll(ks: seq<Tree>, out: Node?)
    reads FootprintOf(ks)
  {
    forall i :: 0 <= i < |ks| ==> Holds(ks[i], After(ks, i, out))
  }

  // ---- Concatenation of children ----

  lemma {:induction false} EntsOfConcat(a: seq<Tree>, b: seq<Tree>)
    ensures EntsOf(a + b) == EntsOf(a) + EntsOf(b)
  {
    if a == [] {
      assert a + b == b;
    } else {
      var ab := a + b;
      assert ab[0] == a[0] && ab[1..] == a[1..] + b;
      EntsOfConcat(a[1..], b);
      AppendAssoc(Ents(a[0]), EntsOf(a[1..]), EntsOf(b));
    }
  }

  lemma EntsOfAround(ks: seq<Tree>, i: nat)
    requires i < |ks|
    ensures EntsOf(ks) == EntsOf(ks[..i]) + Ents(ks[i]) + EntsOf(ks[i + 1..])
  {
    assert ks == ks[..i] + ks[i..] && ks[i..][1..] == ks[i + 1..];
    EntsOfConcat(ks[..i], ks[i..]);
    AppendAssoc(EntsOf(ks[..i]), Ents(ks[i]), EntsOf(ks[i + 1..]));
  }

  // ---- Consequences of the order ----

  /** The entries of an ordered tree are ascending and within its bounds. */
  lemma {:induction false} OrderedEnts(t: Tree, lo: int, hi: int)
    requires Ordered(t, lo, hi)
    ensures Ascending(Ents(t)) && AllFrom(lo, Ents(t)) && AllBelow(Ents(t), hi)
    decreases t, 1, 0
  {
    if t.Inner? {
      assert t.kids[..|t.kids|] == t.kids;
      OrderedPrefix(t, |t.keys|, lo, hi);
    }
  }

  lemma {:induction false} OrderedPrefix(t: Tree, i: nat, lo: int, hi: int)
    requires Ordered(t, lo, hi) && t.Inner? && i <= |t.keys|
    ensures Ascending(EntsOf(t.kids[..i + 1]))
    ensures AllFrom(lo, EntsOf(t.kids[..i + 1]))
    ensures AllBelow(EntsOf(t.kids[..i + 1]), Hi(t.keys, i, hi))
    decreases t, 0, i
  {
    OrderedEnts(t.kids[i], Lo(t.keys, i, lo), Hi(t.keys, i, hi));
    var upTo := t.kids[..i + 1];
    EntsOfAround(upTo, i);
    assert upTo[..i] == t.kids[..i];
    if i > 0 {
      OrderedPrefix(t, i - 1, lo, hi);
    }
  }

  /** What lies left of child i is below its lower bound. */
  lemma LeftPart(t: Tree, i: nat, lo: int, hi: int)
    requires Ordered(t, lo, hi) && t.Inner? && i < |t.kids|
    ensures AllBelow(EntsOf(t.kids[..i]), Lo(t.keys, i, lo))
  {
    if i > 0 {
      OrderedPrefix(t, i - 1, lo, hi);
    }
  }

  /** What lies right of child i is not below its upper bound. */
  lemma {:induction false} RightPart(t: Tree, i: nat, lo: int, hi: int)
    requires Ordered(t, lo, hi) && t.Inner? && i < |t.kids|
    ensures AllFrom(Hi(t.keys, i, hi), EntsOf(t.kids[i + 1..]))
    decreases |t.kids| - i
  {
    if i + 1 < |t.kids| {
      RightPart(t, i + 1, lo, hi);
      OrderedEnts(t.kids[i + 1], Lo(t.keys, i + 1, lo), Hi(t.keys, i + 1, hi));
      assert t.kids[i + 1..][1..] == t.kids[i + 2..];
    }
  }

  /** The child chosen for a key is the only one that can hold it, and insertion happens inside it. */
  lemma Descend(t: Tree, i: nat, lo: int, hi: int, id: u64, ref: RowRef)
    requires Ordered(t, lo, hi) && t.Inner? && i < |t.kids|
    requires Lo(t.keys, i, lo) <= id < Hi(t.keys, i, hi)
    ensures HasKey(Ents(t), id) <==> HasKey(Ents(t.kids[i]), id)
    ensures Inserted(Ents(t), id, ref)
         == EntsOf(t.kids[..i]) + Inserted(Ents(t.kids[i]), id, ref) + EntsOf(t.kids[i + 1..])
  {
    LeftPart(t, i, lo, hi);
    RightPart(t, i, lo, hi);
    EntsOfAround(t.kids, i);
    HasKeyInMiddle(EntsOf(t.kids[..i]), Ents(t.kids[i]), EntsOf(t.kids[i + 1..]), id);
    InsertedInMiddle(EntsOf(t.kids[..i]), Ents(t.kids[i]), EntsOf(t.kids[i + 1..]), id, ref);
  }

  // ---- Size ----

  ghost function Pow16(h: nat): nat {
    if h == 0 then 1 else 16 * Pow16(h - 1)
  }

  lemma {:induction false} Pow16Positive(h: nat)
    ensures Pow16(h) > 0
  {
    if h > 0 {
      Pow16Positive(h - 1);
    }
  }

  lemma MulMono(a: nat, b: nat, c: nat)
    requires a <= b
    ensures a * c <= b * c
  {
  }

  lemma {:induction false} KidsSize(ks: seq<Tree>, h: nat)
    requires forall i :: 0 <= i < |ks| ==> Balanced(ks[i], h, false)
    ensures |EntsOf(ks)| >= |ks| * Pow16(h + 1)
    decreases h, |ks|
  {
    if ks != [] {
      NonRootSize(ks[0], h);
      KidsSize(ks[1..], h);
      var p := Pow16(h + 1);
      assert |ks| * p == p + (|ks| - 1) * p;
    }
  }

  lemma {:induction false} NonRootSize(t: Tree, h: nat)
    requires Balanced(t, h, false)
    ensures |Ents(t)| >= Pow16(h + 1)
    decreases h, 0
  {
    if t.Inner? {
      KidsSize(t.kids, h - 1);
      MulMono(16, |t.kids|, Pow16(h));
    }
  }

  /** A tree with h >= 1 internal levels holds at least 2 * 16^h keys. */
  lemma RootSize(t: Tree, h: nat)
    requires Balanced(t, h, true) && h >= 1
    ensures |Ents(t)| >= 2 * Pow16(h)
  {
    KidsSize(t.kids, h - 1);
    MulMono(2, |t.kids|, Pow16(h));
  }
}
