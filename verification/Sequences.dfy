/**
  Facts about sequences, and the accumulator of loops that collect items until one fails.
 */
module Sequences {
  import opened Text

  lemma AppendAssoc<T>(a: seq<T>, b: seq<T>, c: seq<T>)
    ensures (a + b) + c == a + (b + c)
  {
  }

  lemma InitLast<T>(s: seq<T>)
    requires s != []
    ensures s == s[..|s| - 1] + [s[|s| - 1]]
  {
  }

  /** What was collected so far, in front of what is still to come. */
  ghost function Prefixed<T>(done: seq<T>, r: Option<seq<T>>): Option<seq<T>> {
    if r.None? then None else Some(done + r.value)
  }

  lemma PrefixedNothing<T>(r: Option<seq<T>>)
    ensures Prefixed([], r) == r
  {
    if r.Some? {
      assert [] + r.value == r.value;
    }
  }

  lemma PrefixedStep<T>(done: seq<T>, x: T, r: Option<seq<T>>)
    ensures Prefixed(done + [x], r) == Prefixed(done, Prefixed([x], r))
  {
    if r.Some? {
      assert (done + [x]) + r.value == done + ([x] + r.value);
    }
  }
}
