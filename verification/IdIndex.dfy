/**
  The id index: the global tree root, insertion with root growth, point lookup,
  lower bound and leftmost leaf.
 */
module IdIndex {
  import opened Entries
  import opened BPlusTree
  import opened NodeOps
  import opened Insertion
  import opened LeafChain

  /** The chain of leaves, cut at the one leaf in which a key belongs. */
  ghost predicate CutAt(t: Tree, pre: seq<Tree>, lt: Tree, post: seq<Tree>, id: int) {
    match lt
    case Inner(_, _, _) => false
    case Leaf(_, _) =>
      Leaves(t) == pre + [lt] + post && AllBelow(EntsOf(pre), id) && AllFrom(id + 1, EntsOf(post))
  }

  lemma StepDown(t: Tree, i: nat, lo: int, hi: int, id: int)
    requires t.Inner? && Ordered(t, lo, hi) && i < |t.kids|
    requires Lo(t.keys, i, lo) <= id < Hi(t.keys, i, hi)
    ensures Leaves(t) == LeavesOf(t.kids[..i]) + Leaves(t.kids[i]) + LeavesOf(t.kids[i + 1..])
    ensures AllBelow(EntsOf(LeavesOf(t.kids[..i])), id) && AllFrom(id + 1, EntsOf(LeavesOf(t.kids[i + 1..])))
  {
    LeavesOfAround(t.kids, i);
    LeavesOfEnts(t.kids[..i]);
    LeavesOfEnts(t.kids[i + 1..]);
    LeftPart(t, i, lo, hi);
    RightPart(t, i, lo, hi);
  }

  lemma Regroup<T>(a: seq<T>, b: seq<T>, c: seq<T>, d: seq<T>, e: seq<T>)
    ensures a + (b + c + d) + e == (a + b) + c + (d + e)
  {
  }

  lemma WidenCut(pre: seq<Tree>, l: seq<Tree>, r: seq<Tree>, post: seq<Tree>, id: int)
    requires AllBelow(EntsOf(pre), id) && AllBelow(EntsOf(l), id)
    requires AllFrom(id + 1, EntsOf(r)) && AllFrom(id + 1, EntsOf(post))
    ensures AllBelow(EntsOf(pre + l), id) && AllFrom(id + 1, EntsOf(r + post))
  {
    EntsOfConcat(pre, l);
    EntsOfConcat(r, post);
  }

  /** One step of a descent: the child to follow, and what stays left and right of it in the chain. */
  method StepToChild(node: Node, id: u64, ghost t: Tree, ghost lo: int, ghost hi: int, ghost pre: seq<Tree>,
                     ghost post: seq<Tree>)
    returns (child: Node, i: nat, ghost pre': seq<Tree>, ghost post': seq<Tree>)
    requires t.Inner? && t.node == node && NodeHolds(t) && Ordered(t, lo, hi) && lo <= id < hi
    requires AllBelow(EntsOf(pre), id) && AllFrom(id + 1, EntsOf(post))
    ensures i < |t.kids| && child == t.kids[i].node
    ensures Lo(t.keys, i, lo) <= id < Hi(t.keys, i, hi)
    ensures pre + Leaves(t) + post == pre' + Leaves(t.kids[i]) + post'
    ensures AllBelow(EntsOf(pre'), id) && AllFrom(id + 1, EntsOf(post'))
  {
    i := ChildIndex(node, id);
    Chosen(node, t, i, lo, hi, id);
    StepDown(t, i, lo, hi, id);
    ghost var l, r := LeavesOf(t.kids[..i]), LeavesOf(t.kids[i + 1..]);
    WidenCut(pre, l, r, post, id);
    Regroup(pre, l, Leaves(t.kids[i]), r, post);
    pre', post' := pre + l, r + post;
    child := node.children[i];
  }

  /** The descent shared by point lookup and lower bound. */
  method DescendToLeaf(root: Node, id: u64, ghost t: Tree, ghost out: Node?, ghost h: nat, ghost foot: set<object>)
    returns (leaf: Node, ghost pre: seq<Tree>, ghost lt: Tree, ghost post: seq<Tree>)
    requires t.node == root && Holds(t, out) && Balanced(t, h, true) && Ordered(t, 0, U64_LIMIT) && foot == Footprint(t)
    ensures CutAt(t, pre, lt, post, id) && lt.node == leaf && NodeHolds(lt) && Ascending(lt.ents)
  {
    leaf := root;
    ghost var o, ch, cr, lo, hi := out, h, true, 0, U64_LIMIT;
    lt, pre, post := t, [], [];
    assert EntsOf(pre) == [] && Leaves(t) == pre + Leaves(lt) + post;
    while !leaf.isLeaf
      invariant lt.node == leaf && Holds(lt, o) && Footprint(lt) <= foot
      invariant Balanced(lt, ch, cr)
      invariant Ordered(lt, lo, hi) && lo <= id < hi
      invariant Leaves(t) == pre + Leaves(lt) + post
      invariant AllBelow(EntsOf(pre), id) && AllFrom(id + 1, EntsOf(post))
      decreases ch
    {
      var i;
      label before:
      leaf, i, pre, post := StepToChild(leaf, id, lt, lo, hi, pre, post);
      assert old@before(Holds(lt, o)) && unchanged@before(foot);
      assert Holds(lt, o);
      o, ch, cr, lo, hi := After(lt.kids, i, o), ch - 1, false, Lo(lt.keys, i, lo), Hi(lt.keys, i, hi);
      lt := lt.kids[i];
    }
  }

  lemma SinglePartsBack(parts: seq<Tree>, out: Node?)
    requires |parts| == 1 && HoldAll(parts, out) && Apart(parts)
    ensures Holds(parts[0], out) && Separate(parts[0]) && FootprintOf(parts) == Footprint(parts[0])
    ensures EntsOf(parts) == Ents(parts[0])
  {
    assert parts == [parts[0]];
    SingleEnts(parts[0]);
    assert Holds(parts[0], After(parts, 0, out));
  }

  lemma RootOrdered(node: Node, parts: seq<Tree>, p: u64, right: Node, h: nat)
    requires Placed(parts, Split(p, right), h, true, 0, U64_LIMIT)
    ensures Balanced(Inner(node, [p], parts), h + 1, true) && Ordered(Inner(node, [p], parts), 0, U64_LIMIT)
  {
  }

  /** A new root above the two halves of the old one. */
  method GrowRoot(root: Node, p: u64, right: Node, ghost parts: seq<Tree>, ghost h: nat, ghost foot: set<object>)
    returns (newRoot: Node, ghost t: Tree)
    requires Placed(parts, Split(p, right), h, true, 0, U64_LIMIT) && parts[0].node == root
    requires HoldAll(parts, null) && Apart(parts) && foot == FootprintOf(parts)
    ensures t == Inner(newRoot, [p], parts) && Holds(t, null) && Separate(t)
    ensures Balanced(t, h + 1, true) && Ordered(t, 0, U64_LIMIT)
    ensures fresh(Own(newRoot))
  {
    newRoot := new Node(false);
    newRoot.keys[0] := p;
    newRoot.size := 1;
    newRoot.children[0] := root;
    newRoot.children[1] := right;
    t := Inner(newRoot, [p], parts);
    assert unchanged(foot) && foot !! Own(newRoot);
    assert old(HoldAll(parts, null));
    assert HoldAll(parts, null);
    assert NodeHolds(t);
    RootOrdered(newRoot, parts, p, right, h);
  }

  /** t is a whole index with h internal levels below the given root node. */
  ghost predicate IsIndex(root: Node, t: Tree, h: nat)
    reads Footprint(t)
  {
    && root == t.node
    && Holds(t, null) && Separate(t)
    && Balanced(t, h, true) && Ordered(t, 0, U64_LIMIT)
  }

  /** Insertion from the root down, with the growth of the root. */
  method InsertAtRoot(root: Node, id: u64, ref: RowRef, ghost t: Tree, ghost h: nat, ghost foot: set<object>)
    returns (rc: int, newRoot: Node, ghost t': Tree, ghost h': nat, ghost added: set<object>)
    requires IsIndex(root, t, h) && foot == Footprint(t)
    modifies foot
    ensures rc == if HasKey(Ents(t), id) then 1 else 0
    ensures rc == 1 ==> unchanged(foot) && newRoot == root && t' == t && h' == h
    ensures IsIndex(newRoot, t', h')
    ensures rc == 0 ==> Ents(t') == Inserted(Ents(t), id, ref)
    ensures fresh(added) && Footprint(t') <= foot + added
  {
    var res;
    ghost var parts;
    rc, res, parts, added := InsertRecursive(root, id, ref, t, h, true, 0, U64_LIMIT, null, foot);
    match res {
      case NoSplit =>
        SinglePartsBack(parts, null);
        newRoot, t', h' := root, parts[0], h;
      case Split(promoted, right) =>
        newRoot, t' := GrowRoot(root, promoted, right, parts, h, FootprintOf(parts));
        h' := h + 1;
        added := set o | o in added + Own(newRoot) && fresh(o);
        assert forall o :: o in Own(newRoot) ==> o in added;
    }
  }

  lemma CutEnts(t: Tree, pre: seq<Tree>, lt: Tree, post: seq<Tree>, id: int)
    requires CutAt(t, pre, lt, post, id)
    ensures Ents(t) == EntsOf(pre) + lt.ents + EntsOf(post)
  {
    LeavesEnts(t);
    EntsOfConcat(pre + [lt], post);
    EntsOfConcat(pre, [lt]);
    SingleEnts(lt);
  }

  lemma {:induction false} LeavesNotEmpty(t: Tree, h: nat)
    requires Balanced(t, h, false)
    ensures forall i :: 0 <= i < |Leaves(t)| ==> Ents(Leaves(t)[i]) != []
    decreases t, 0
  {
    if t.Inner? {
      LeavesOfNotEmpty(t.kids, h - 1);
    }
  }

  lemma {:induction false} LeavesOfNotEmpty(ks: seq<Tree>, h: nat)
    requires forall i :: 0 <= i < |ks| ==> Balanced(ks[i], h, false)
    ensures forall i :: 0 <= i < |LeavesOf(ks)| ==> Ents(LeavesOf(ks)[i]) != []
    decreases ks, 1
  {
    if ks != [] {
      LeavesNotEmpty(ks[0], h);
      LeavesOfNotEmpty(ks[1..], h);
    }
  }

  lemma CutRank(t: Tree, pre: seq<Tree>, lt: Tree, post: seq<Tree>, key: u64, index: nat)
    requires CutAt(t, pre, lt, post, key) && index <= |lt.ents|
    requires forall j :: 0 <= j < index ==> lt.ents[j].key < key
    requires index < |lt.ents| ==> key <= lt.ents[index].key
    ensures Rank(Ents(t), key) == |EntsOf(pre)| + index
    ensures |Ents(t)| == |EntsOf(pre)| + |lt.ents| + |EntsOf(post)|
  {
    CutEnts(t, pre, lt, post, key);
    var s, p := Ents(t), |EntsOf(pre)| + index;
    assert s[..p] == EntsOf(pre) + lt.ents[..index];
    RankIs(s, key, p);
  }

  /** The leaf behind the cut, if there is one. */
  lemma BehindCut(t: Tree, h: nat, pre: seq<Tree>, lt: Tree, post: seq<Tree>, key: u64)
    requires Balanced(t, h, true) && CutAt(t, pre, lt, post, key) && post != []
    ensures var ls := Leaves(t);
      && |pre| + 1 < |ls| && ls[|pre| + 1].Leaf? && ls[|pre| + 1].ents != []
      && |EntsOf(ls[..|pre| + 1])| == |EntsOf(pre)| + |lt.ents| < |Ents(t)|
  {
    var ls := Leaves(t);
    LeavesEnts(t);
    assert ls[|pre| + 1] == post[0] && ls[..|pre| + 1] == pre + [lt];
    EntsOfConcat(pre, [lt]);
    SingleEnts(lt);
    assert t.Inner?;
    LeavesOfNotEmpty(t.kids, h - 1);
    EntsOfConcat(pre + [lt], post);
  }

  /** Where the search ends, seen in the chain of leaves; past the end of a leaf it steps to the next one. */
  lemma LowerBoundPosition(t: Tree, h: nat, pre: seq<Tree>, lt: Tree, post: seq<Tree>, key: u64, index: nat)
    requires Balanced(t, h, true) && CutAt(t, pre, lt, post, key) && index <= |lt.ents|
    requires forall j :: 0 <= j < index ==> lt.ents[j].key < key
    requires index < |lt.ents| ==> key <= lt.ents[index].key
    ensures var ls := Leaves(t);
      && |pre| < |ls| && ls[|pre|] == lt && ls[..|pre|] == pre && |EntsOf(pre)| + index == Rank(Ents(t), key)
      && (|pre| + 1 < |ls| ==>
           && ls[|pre| + 1].Leaf? && ls[|pre| + 1].ents != []
           && |EntsOf(ls[..|pre| + 1])| == |EntsOf(pre)| + |lt.ents| < |Ents(t)|)
      && (index < |lt.ents| || |pre| + 1 < |ls| <==> Rank(Ents(t), key) < |Ents(t)|)
  {
    CutRank(t, pre, lt, post, key, index);
    var ls := Leaves(t);
    assert ls[..|pre|] == pre;
    LeavesEnts(t);
    if post != [] {
      BehindCut(t, h, pre, lt, post, key);
    }
  }

  /** The global index: the root pointer, with the tree it represents as ghost state. */
  class Index {
    var root: Node
    ghost var tree: Tree
    ghost var height: nat
    ghost var Repr: set<object>

    ghost predicate Valid()
      reads this, Repr
      ensures Valid() ==> this in Repr
    {
      && Repr == {this} + Footprint(tree) && this !in Footprint(tree)
      && IsIndex(root, tree, height)
    }

    ghost function Entries(): seq<Entry>
      reads this
    {
      Ents(tree)
    }

    constructor ()
      ensures Valid() && fresh(Repr) && Entries() == []
    {
      var leaf := new Node(true);
      root := leaf;
      tree, height := Leaf(leaf, []), 0;
      Repr := {this} + Own(leaf);
    }

    /** Every reachable index is in ascending order, and h internal levels need 2 * 16^h entries. */
    lemma Facts()
      requires Valid()
      ensures Ascending(Entries())
      ensures height >= 1 ==> |Entries()| >= 2 * Pow16(height)
      ensures var ls := Leaves(tree);
        && HoldAll(ls, null) && AllLeaves(ls) && EntsOf(ls) == Entries()
        && ls != [] && ls[0].node == First(tree)
    {
      OrderedEnts(tree, 0, U64_LIMIT);
      ChainOf(tree, null, height, true);
      LeavesEnts(tree);
      if height >= 1 {
        RootSize(tree, height);
      }
    }

    /** 0 and one new entry for a fresh id; 1 and no change at all for a present one. */
    method Insert(id: u64, ref: RowRef) returns (rc: int)
      requires Valid()
      modifies Repr
      ensures Valid() && fresh(Repr - old(Repr))
      ensures rc == if HasKey(old(Entries()), id) then 1 else 0
      ensures rc == 0 ==> Entries() == Inserted(old(Entries()), id, ref)
      ensures rc == 1 ==> unchanged(old(Repr)) && tree == old(tree)
    {
      ghost var added;
      rc, root, tree, height, added := InsertAtRoot(root, id, ref, tree, height, Footprint(tree));
      Repr := {this} + Footprint(tree);
    }

    /** Point lookup: 0 and the stored ref exactly when the id is present. */
    method Find(id: u64) returns (rc: int, ref: RowRef)
      requires Valid()
      ensures rc == if HasKey(Entries(), id) then 0 else 1
      ensures rc == 0 ==> Entry(id, ref) in Entries()
    {
      var leaf;
      ghost var pre, lt, post;
      leaf, pre, lt, post := DescendToLeaf(root, id, tree, null, height, Footprint(tree));
      CutEnts(tree, pre, lt, post, id);
      HasKeyInMiddle(EntsOf(pre), lt.ents, EntsOf(post), id);
      ref := 0;
      var i := 0;
      while i < leaf.size
        invariant i <= leaf.size
        invariant forall j :: 0 <= j < i ==> lt.ents[j].key != id
      {
        if leaf.keys[i] == id {
          assert lt.ents[i] == Entry(id, leaf.refs[i]);
          assert Entries()[|EntsOf(pre)| + i] == lt.ents[i];
          return 0, leaf.refs[i];
        }
        i := i + 1;
      }
      rc := 1;
    }

    /**
      The place of the smallest key that is at least key: leaf number k of the chain,
      position index in it. False exactly when every key is smaller.
     */
    method LowerBound(key: u64) returns (found: bool, leaf: Node?, index: nat, ghost k: nat)
      requires Valid()
      ensures found <==> Rank(Entries(), key) < |Entries()|
      ensures found ==> k < |Leaves(tree)| && Leaves(tree)[k].node == leaf
      ensures found ==> Leaves(tree)[k].Leaf? && index < |Leaves(tree)[k].ents|
      ensures found ==> |EntsOf(Leaves(tree)[..k])| + index == Rank(Entries(), key)
    {
      var n;
      ghost var pre, lt, post;
      n, pre, lt, post := DescendToLeaf(root, key, tree, null, height, Footprint(tree));
      index := LeafPosition(n, key);
      LowerBoundPosition(tree, height, pre, lt, post, key, index);
      ChainOf(tree, null, height, true);
      assert Holds(Leaves(tree)[|pre|], After(Leaves(tree), |pre|, null));
      LeavesEnts(tree);
      leaf, k := n, |pre|;
      if index >= n.size {
        leaf, index, k := n.next, 0, |pre| + 1;
      }
      found := leaf != null;
    }

    /** The start of the chain of leaves. */
    method LeftmostLeaf() returns (leaf: Node)
      requires Valid()
      ensures Leaves(tree) != [] && leaf == Leaves(tree)[0].node
    {
      ChainOf(tree, null, height, true);
      leaf := root;
      ghost var t, h, r, o := tree, height, true, null;
      while !leaf.isLeaf
        invariant t.node == leaf && Holds(t, o) && Balanced(t, h, r) && First(t) == First(tree)
        decreases h
      {
        assert Holds(t.kids[0], After(t.kids, 0, o)) && Balanced(t.kids[0], h - 1, false);
        leaf := leaf.children[0];
        t, h, r, o := t.kids[0], h - 1, false, After(t.kids, 0, o);
      }
    }
  }
}
