/**
  The leaves of the tree as one chain: every traversal by next pointers sees
  exactly the leaves of the tree, left to right.
 */
module LeafChain {
  import opened Sequences
  import opened BPlusTree

  ghost function Leaves(t: Tree): seq<Tree> {
    match t
    case Leaf(_, _) => [t]
    case Inner(_, _, kids) => LeavesOf(kids)
  }

  ghost function LeavesOf(ks: seq<Tree>): seq<Tree> {
    if ks == [] then [] else Leaves(ks[0]) + LeavesOf(ks[1..])
  }

  ghost predicate AllLeaves(ls: seq<Tree>) {
    forall i :: 0 <= i < |ls| ==> ls[i].Leaf?
  }

  lemma {:induction false} LeavesOfConcat(a: seq<Tree>, b: seq<Tree>)
    ensures LeavesOf(a + b) == LeavesOf(a) + LeavesOf(b)
  {
    if a == [] {
      assert a + b == b;
    } else {
      var ab := a + b;
      assert ab[0] == a[0] && ab[1..] == a[1..] + b;
      LeavesOfConcat(a[1..], b);
      AppendAssoc(Leaves(a[0]), LeavesOf(a[1..]), LeavesOf(b));
    }
  }

  lemma LeavesOfAround(ks: seq<Tree>, i: nat)
    requires i < |ks|
    ensures LeavesOf(ks) == LeavesOf(ks[..i]) + Leaves(ks[i]) + LeavesOf(ks[i + 1..])
  {
    assert ks == ks[..i] + ks[i..] && ks[i..][1..] == ks[i + 1..];
    LeavesOfConcat(ks[..i], ks[i..]);
    AppendAssoc(LeavesOf(ks[..i]), Leaves(ks[i]), LeavesOf(ks[i + 1..]));
  }

  /** The leaves carry exactly the entries of the tree, in order. */
  lemma {:induction false} LeavesEnts(t: Tree)
    ensures EntsOf(Leaves(t)) == Ents(t) && AllLeaves(Leaves(t))
    decreases t, 0
  {
    match t
    case Leaf(_, _) => assert [t][1..] == [];
    case Inner(_, _, kids) => LeavesOfEnts(kids);
  }

  lemma {:induction false} LeavesOfEnts(ks: seq<Tree>)
    ensures EntsOf(LeavesOf(ks)) == EntsOf(ks) && AllLeaves(LeavesOf(ks))
    decreases ks, 1
  {
    if ks != [] {
      LeavesEnts(ks[0]);
      LeavesOfEnts(ks[1..]);
      EntsOfConcat(Leaves(ks[0]), LeavesOf(ks[1..]));
    }
  }

  lemma AfterConcat(a: seq<Tree>, b: seq<Tree>, mid: Node?, out: Node?, i: nat)
    requires i < |a| + |b| && mid == if b == [] then out else First(b[0])
    ensures (a + b)[i] == if i < |a| then a[i] else b[i - |a|]
    ensures After(a + b, i, out) == if i < |a| then After(a, i, mid) else After(b, i - |a|, out)
  {
  }

  lemma HoldAllConcat(a: seq<Tree>, b: seq<Tree>, mid: Node?, out: Node?)
    requires HoldAll(a, mid) && HoldAll(b, out) && mid == if b == [] then out else First(b[0])
    ensures HoldAll(a + b, out)
  {
    var ab := a + b;
    forall i | 0 <= i < |ab| ensures Holds(ab[i], After(ab, i, out)) {
      AfterConcat(a, b, mid, out, i);
    }
  }

  /** On the heap the leaves form one chain by their next pointers, from the first leaf to out. */
  lemma {:induction false} ChainOf(t: Tree, out: Node?, h: nat, root: bool)
    requires Holds(t, out) && Balanced(t, h, root)
    ensures HoldAll(Leaves(t), out) && Leaves(t) != [] && Leaves(t)[0].node == First(t)
    decreases t, 0
  {
    if t.Inner? {
      ChainOfKids(t.kids, out, h - 1);
    }
  }

  lemma {:induction false} ChainOfKids(ks: seq<Tree>, out: Node?, h: nat)
    requires ks != [] && HoldAll(ks, out)
    requires forall i :: 0 <= i < |ks| ==> Balanced(ks[i], h, false)
    ensures HoldAll(LeavesOf(ks), out) && LeavesOf(ks) != [] && LeavesOf(ks)[0].node == First(ks[0])
    decreases ks, 1
  {
    ChainOf(ks[0], After(ks, 0, out), h, false);
    LeavesEnts(ks[0]);
    var rest := ks[1..];
    if rest == [] {
      assert Leaves(ks[0]) + LeavesOf(rest) == Leaves(ks[0]);
    } else {
      forall i | 0 <= i < |rest| ensures Holds(rest[i], After(rest, i, out)) {
        assert Holds(ks[i + 1], After(ks, i + 1, out));
      }
      ChainOfKids(rest, out, h);
      LeavesOfEnts(rest);
      HoldAllConcat(Leaves(ks[0]), LeavesOf(rest), First(rest[0]), out);
    }
  }

  /** No leaf occurs twice in the chain. */
  lemma {:induction false} LeavesApart(t: Tree)
    requires Separate(t)
    ensures Apart(Leaves(t)) && FootprintOf(Leaves(t)) <= Footprint(t)
    decreases t, 0
  {
    match t
    case Leaf(_, _) => assert [t][0] == t;
    case Inner(_, _, kids) => LeavesOfApart(kids);
  }

  lemma TailApart(ks: seq<Tree>)
    requires ks != [] && Apart(ks)
    ensures Apart(ks[1..]) && Footprint(ks[0]) !! FootprintOf(ks[1..])
    ensures Footprint(ks[0]) + FootprintOf(ks[1..]) == FootprintOf(ks)
  {
    assert ks == [ks[0]] + ks[1..];
  }

  lemma {:induction false} LeavesOfApart(ks: seq<Tree>)
    requires Apart(ks)
    ensures Apart(LeavesOf(ks)) && FootprintOf(LeavesOf(ks)) <= FootprintOf(ks)
    decreases ks, 1
  {
    if ks != [] {
      var a, b := Leaves(ks[0]), LeavesOf(ks[1..]);
      LeavesApart(ks[0]);
      TailApart(ks);
      LeavesOfApart(ks[1..]);
      ApartConcat(a, b);
    }
  }

  lemma FootprintConcat(a: seq<Tree>, b: seq<Tree>, i: nat)
    requires i < |a| + |b|
    ensures (a + b)[i] == if i < |a| then a[i] else b[i - |a|]
    ensures Footprint((a + b)[i]) <= if i < |a| then FootprintOf(a) else FootprintOf(b)
  {
  }

  lemma ApartConcat(a: seq<Tree>, b: seq<Tree>)
    requires Apart(a) && Apart(b) && FootprintOf(a) !! FootprintOf(b)
    ensures Apart(a + b) && FootprintOf(a + b) <= FootprintOf(a) + FootprintOf(b)
  {
    var ab := a + b;
    forall i | 0 <= i < |ab| ensures Separate(ab[i]) && Footprint(ab[i]) <= FootprintOf(a) + FootprintOf(b) {
      FootprintConcat(a, b, i);
    }
    forall i, j | 0 <= i < j < |ab| ensures Footprint(ab[i]) !! Footprint(ab[j]) {
      FootprintConcat(a, b, i);
      FootprintConcat(a, b, j);
    }
  }

  /** The walk by next pointers visits the leaves of the tree once each and ends in out. */
  lemma ChainVisitsEachLeafOnce(t: Tree, out: Node?, h: nat, root: bool)
    requires Holds(t, out) && Balanced(t, h, root) && Separate(t)
    ensures var ls := Leaves(t);
      && ls != [] && AllLeaves(ls) && ls[0].node == First(t)
      && (forall i :: 0 <= i < |ls| ==> ls[i].node.next == if i + 1 < |ls| then ls[i + 1].node else out)
      && (forall i, j :: 0 <= i < j < |ls| ==> ls[i].node != ls[j].node)
      && EntsOf(ls) == Ents(t)
  {
    ChainOf(t, out, h, root);
    LeavesEnts(t);
    LeavesApart(t);
    var ls := Leaves(t);
    forall i | 0 <= i < |ls| ensures ls[i].node.next == if i + 1 < |ls| then ls[i + 1].node else out {
      assert Holds(ls[i], After(ls, i, out));
    }
    forall i, j | 0 <= i < j < |ls| ensures ls[i].node != ls[j].node {
      assert ls[i].node in Footprint(ls[i]) && ls[j].node in Footprint(ls[j]);
    }
  }
}
