/**
  Machine integers and the abstract value of the id index: a sequence of
  (id, row offset) entries in ascending id order.
 */
module Entries {

  const U64_LIMIT: int := 0x1_0000_0000_0000_0000

  type u64 = x: int | 0 <= x < 0x1_0000_0000_0000_0000

  /** The byte offset of a row in its file. */
  type RowRef = nat

  datatype Entry = Entry(key: u64, ref: RowRef)

  /** Strictly ascending keys, hence no key twice. */
  ghost predicate Ascending(s: seq<Entry>) {
    forall i, j :: 0 <= i < j < |s| ==> s[i].key < s[j].key
  }

  ghost predicate HasKey(s: seq<Entry>, k: u64) {
    exists i :: 0 <= i < |s| && s[i].key == k
  }

  ghost predicate AllBelow(s: seq<Entry>, k: int) {
    forall i :: 0 <= i < |s| ==> s[i].key < k
  }

  ghost predicate AllFrom(k: int, s: seq<Entry>) {
    forall i :: 0 <= i < |s| ==> k <= s[i].key
  }

  /** The number of entries in front of the first key that is not below k. */
  ghost function Rank(s: seq<Entry>, k: int): (p: nat)
    ensures p <= |s|
    ensures AllBelow(s[..p], k)
    ensures p < |s| ==> k <= s[p].key
  {
    if s == [] || k <= s[0].key then 0 else 1 + Rank(s[1..], k)
  }

  /** The index after a new entry has gone to its place in the order. */
  ghost function Inserted(s: seq<Entry>, k: u64, r: RowRef): seq<Entry> {
    s[..Rank(s, k)] + [Entry(k, r)] + s[Rank(s, k)..]
  }

  lemma {:induction false} RankIs(s: seq<Entry>, k: int, p: nat)
    requires p <= |s| && AllBelow(s[..p], k) && (p < |s| ==> k <= s[p].key)
    ensures Rank(s, k) == p
  {
    if p != 0 {
      assert s[..p][0] == s[0];
      assert s[1..][..p - 1] == s[..p][1..];
      RankIs(s[1..], k, p - 1);
    }
  }

  lemma HasKeyInMiddle(pre: seq<Entry>, mid: seq<Entry>, post: seq<Entry>, k: u64)
    requires AllBelow(pre, k) && AllFrom(k + 1, post)
    ensures HasKey(pre + mid + post, k) <==> HasKey(mid, k)
  {
    var all := pre + mid + post;
    if i :| 0 <= i < |mid| && mid[i].key == k {
      assert all[|pre| + i] == mid[i];
    }
    if i :| 0 <= i < |all| && all[i].key == k {
      assert |pre| <= i < |pre| + |mid| && mid[i - |pre|] == all[i];
    }
  }

  /** Insertion goes to the middle part when the outer parts lie on their own sides of k. */
  lemma InsertedInMiddle(pre: seq<Entry>, mid: seq<Entry>, post: seq<Entry>, k: u64, r: RowRef)
    requires AllBelow(pre, k) && AllFrom(k + 1, post)
    ensures Inserted(pre + mid + post, k, r) == pre + Inserted(mid, k, r) + post
  {
    var all, p := pre + mid + post, Rank(mid, k);
    var q := |pre| + p;
    assert all[..q] == pre + mid[..p] && all[q..] == mid[p..] + post;
    assert q < |all| ==> all[q] == if p < |mid| then mid[p] else post[0];
    RankIs(all, k, q);
  }

  /** A fresh key keeps the order strict, and the result holds the old entries and the new one. */
  lemma InsertedAscending(s: seq<Entry>, k: u64, r: RowRef)
    requires Ascending(s) && !HasKey(s, k)
    ensures Ascending(Inserted(s, k, r))
    ensures multiset(Inserted(s, k, r)) == multiset(s) + multiset{Entry(k, r)}
  {
    var p := Rank(s, k);
    assert s == s[..p] + s[p..];
    forall i | p <= i < |s| ensures k < s[i].key { assert s[p].key <= s[i].key; }
    forall i | 0 <= i < p ensures s[i].key < k { assert s[i] == s[..p][i]; }
  }
}
