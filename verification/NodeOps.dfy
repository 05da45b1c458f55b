/**
  What insertion does to a single node: the search loops, the in-place shifts,
  and the two splits through a merged temporary.
 */
module NodeOps {
  import opened Entries
  import opened BPlusTree

  // ---- Sequence forms of the node updates ----

  function InsertAt<T>(s: seq<T>, at: nat, x: T): seq<T>
    requires at <= |s|
  {
    s[..at] + [x] + s[at..]
  }

  // ---- Search inside a node ----

  /** The child to follow for id: past every separator that is at most id. */
  method ChildIndex(node: Node, id: u64) returns (i: nat)
    requires WellSized(node) && node.size <= MAX_KEYS
    ensures i <= node.size
    ensures forall j :: 0 <= j < i ==> node.keys[j] <= id
    ensures i < node.size ==> id < node.keys[i]
  {
    i := 0;
    while i < node.size && id >= node.keys[i]
      invariant i <= node.size
      invariant forall j :: 0 <= j < i ==> node.keys[j] <= id
    {
      i := i + 1;
    }
  }

  /** The first position in a leaf whose key is not below id. */
  method LeafPosition(node: Node, id: u64) returns (i: nat)
    requires WellSized(node) && node.size <= MAX_KEYS
    ensures i <= node.size
    ensures forall j :: 0 <= j < i ==> node.keys[j] < id
    ensures i < node.size ==> id <= node.keys[i]
  {
    i := 0;
    while i < node.size && node.keys[i] < id
      invariant i <= node.size
      invariant forall j :: 0 <= j < i ==> node.keys[j] < id
    {
      i := i + 1;
    }
  }

  // ---- Leaf updates ----

  /** Shifts a[at..n] one place up and stores x at position at. */
  method ShiftIn<T>(a: array<T>, n: nat, at: nat, x: T)
    requires at <= n < a.Length
    modifies a
    ensures a[..n + 1] == InsertAt(old(a[..n]), at, x)
  {
    var i := n;
    while i > at
      invariant at <= i <= n
      invariant forall j :: 0 <= j <= i && j < n ==> a[j] == old(a[j])
      invariant forall j :: i < j <= n ==> a[j] == old(a[j - 1])
    {
      a[i] := a[i - 1];
      i := i - 1;
    }
    a[at] := x;
  }

  /** Shifts the tail of a leaf that is not full and stores the new entry. */
  method LeafInsertAt(node: Node, at: nat, id: u64, ref: RowRef)
    requires WellSized(node) && at <= node.size < MAX_KEYS
    modifies node`size, node.keys, node.refs
    ensures node.size == old(node.size) + 1
    ensures node.keys[..node.size] == InsertAt(old(node.keys[..node.size]), at, id)
    ensures node.refs[..node.size] == InsertAt(old(node.refs[..node.size]), at, ref)
  {
    ShiftIn(node.keys, node.size, at, id);
    ShiftIn(node.refs, node.size, at, ref);
    node.size := node.size + 1;
  }

  /** dst[..n] becomes src[from..from + n]. */
  method CopyTo<T>(dst: array<T>, src: array<T>, from: nat, n: nat)
    requires dst != src && n <= dst.Length && from + n <= src.Length
    modifies dst
    ensures dst[..n] == src[from..from + n]
  {
    var i := 0;
    while i < n
      invariant i <= n
      invariant dst[..i] == src[from..from + i]
    {
      dst[i] := src[from + i];
      i := i + 1;
    }
  }

  /** A temporary holding src[..n] with x put in at position at. */
  method Merge<T>(src: array<T>, n: nat, at: nat, x: T) returns (merged: array<T>)
    requires at <= n <= src.Length
    ensures fresh(merged) && merged.Length == n + 1
    ensures merged[..] == InsertAt(src[..n], at, x)
  {
    merged := new T[n + 1](_ => x);
    var i := 0;
    while i < at
      invariant i <= at
      invariant forall j :: 0 <= j < i ==> merged[j] == src[j]
    {
      merged[i] := src[i];
      i := i + 1;
    }
    merged[at] := x;
    while i < n
      invariant at <= i <= n
      invariant forall j :: 0 <= j < at ==> merged[j] == src[j]
      invariant merged[at] == x
      invariant forall j :: at < j <= i ==> merged[j] == src[j - 1]
    {
      merged[i + 1] := src[i];
      i := i + 1;
    }
  }

  lemma Halves<T>(s: seq<T>, m: nat)
    requires m <= |s|
    ensures s == s[0..m] + s[m..|s|]
  {
  }

  lemma AroundMiddle<T>(s: seq<T>, m: nat)
    requires m < |s|
    ensures s == s[0..m] + [s[m]] + s[m + 1..|s|]
  {
  }

  /** Splits a full leaf: the left half stays in node, the right half goes to a new node after it. */
  method LeafSplit(node: Node, at: nat, id: u64, ref: RowRef) returns (promoted: u64, right: Node)
    requires WellSized(node) && at <= node.size == MAX_KEYS
    modifies node, node.keys, node.refs
    ensures right.isLeaf && fresh(Own(right)) && WellSized(right)
    ensures node.size == 16 && right.size == 16
    ensures node.keys[..16] + right.keys[..16] == InsertAt(old(node.keys[..31]), at, id)
    ensures node.refs[..16] + right.refs[..16] == InsertAt(old(node.refs[..31]), at, ref)
    ensures right.next == old(node.next) && node.next == right
    ensures promoted == right.keys[0]
  {
    var total := node.size + 1;
    var mergedKeys := Merge(node.keys, node.size, at, id);
    var mergedRefs := Merge(node.refs, node.size, at, ref);
    ghost var allKeys, allRefs := mergedKeys[..], mergedRefs[..];
    var leftCount := total / 2;
    var rightCount := total - leftCount;
    right := new Node(true);
    CopyTo(node.keys, mergedKeys, 0, leftCount);
    CopyTo(node.refs, mergedRefs, 0, leftCount);
    node.size := leftCount;
    CopyTo(right.keys, mergedKeys, leftCount, rightCount);
    CopyTo(right.refs, mergedRefs, leftCount, rightCount);
    right.size := rightCount;
    Halves(allKeys, leftCount);
    Halves(allRefs, leftCount);
    right.next := node.next;
    node.next := right;
    promoted := right.keys[0];
  }

  // ---- Internal node updates ----

  /** Shifts separators and children of an internal node that is not full. */
  method InnerInsertAt(node: Node, i: nat, key: u64, child: Node)
    requires WellSized(node) && i <= node.size < MAX_KEYS
    modifies node`size, node.keys, node.children
    ensures node.size == old(node.size) + 1
    ensures node.keys[..node.size] == InsertAt(old(node.keys[..node.size]), i, key)
    ensures node.children[..node.size + 1] == InsertAt(old(node.children[..node.size + 1]), i + 1, child)
  {
    ShiftIn(node.keys, node.size, i, key);
    ShiftIn(node.children, node.size + 1, i + 1, child);
    node.size := node.size + 1;
  }

  /** Splits a full internal node: the middle separator moves up. */
  method InnerSplit(node: Node, i: nat, key: u64, child: Node) returns (promoted: u64, right: Node)
    requires WellSized(node) && i <= node.size == MAX_KEYS
    modifies node`size, node.keys, node.children
    ensures !right.isLeaf && fresh(Own(right)) && WellSized(right)
    ensures node.size == 16 && right.size == 15
    ensures node.keys[..16] + [promoted] + right.keys[..15] == InsertAt(old(node.keys[..31]), i, key)
    ensures node.children[..17] + right.children[..16] == InsertAt(old(node.children[..32]), i + 1, child)
  {
    var mergedKeys := Merge(node.keys, node.size, i, key);
    var mergedChildren := Merge(node.children, node.size + 1, i + 1, child);
    var totalKeys := node.size + 1;
    var mid := totalKeys / 2;
    var leftKeys := mid;
    var rightKeys := totalKeys - mid - 1;
    right := new Node(false);
    CopyTo(node.keys, mergedKeys, 0, leftKeys);
    CopyTo(node.children, mergedChildren, 0, leftKeys + 1);
    node.size := leftKeys;
    CopyTo(right.keys, mergedKeys, mid + 1, rightKeys);
    CopyTo(right.children, mergedChildren, mid + 1, rightKeys + 1);
    right.size := rightKeys;
    promoted := mergedKeys[mid];
    AroundMiddle(mergedKeys[..], mid);
    Halves(mergedChildren[..], mid + 1);
  }
}
