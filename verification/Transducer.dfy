/**
  Runs of any step function: invariants, and simulation in which one side may take
  extra steps.
 */
module Transducer {

  /** The final state and every answer on the way. */
  ghost function Run<S, I, O>(step: (S, I) -> (S, O), s: S, ops: seq<I>): (S, seq<O>) {
    if ops == [] then (s, [])
    else
      var (s1, out) := step(s, ops[0]);
      var (s2, outs) := Run(step, s1, ops[1..]);
      (s2, [out] + outs)
  }

  ghost function Only<I>(keep: I -> bool, ops: seq<I>): seq<I> {
    if ops == [] then [] else (if keep(ops[0]) then [ops[0]] else []) + Only(keep, ops[1..])
  }

  /** The answers to the kept inputs, in a run over all of them. */
  ghost function AnswersTo<S, I, O>(step: (S, I) -> (S, O), keep: I -> bool, s: S, ops: seq<I>): seq<O> {
    if ops == [] then []
    else
      var (s1, out) := step(s, ops[0]);
      (if keep(ops[0]) then [out] else []) + AnswersTo(step, keep, s1, ops[1..])
  }

  ghost predicate All<I>(good: I -> bool, ops: seq<I>) {
    forall i :: 0 <= i < |ops| ==> good(ops[i])
  }

  /** inv(s, n) allows n more good steps; every step uses up one. */
  ghost predicate KeptBy<S(!new), I(!new), O>(step: (S, I) -> (S, O), good: I -> bool, inv: (S, nat) -> bool) {
    forall s, m: nat, n: nat, i :: inv(s, m) && good(i) && m == n + 1 ==> inv(step(s, i).0, n)
  }

  lemma {:induction false} RunKeeps<S(!new), I(!new), O>(step: (S, I) -> (S, O), good: I -> bool,
                                                         inv: (S, nat) -> bool, s: S, ops: seq<I>, left: nat)
    requires KeptBy(step, good, inv) && inv(s, |ops| + left) && All(good, ops)
    ensures inv(Run(step, s, ops).0, left)
    decreases |ops|
  {
    if ops != [] {
      var n: nat := |ops| - 1 + left;
      assert inv(step(s, ops[0]).0, n);
      RunKeeps(step, good, inv, step(s, ops[0]).0, ops[1..], left);
    }
  }

  /** Kept inputs are answered alike from related states, and no input breaks the relation. */
  ghost predicate Advances<S, I, O(!new)>(step: (S, I) -> (S, O), good: I -> bool, keep: I -> bool,
                                          rel: (S, S, nat) -> bool, s: S, q: S, i: I, n: nat)
  {
    rel(s, q, n + 1) && good(i) ==>
      if keep(i) then step(s, i).1 == step(q, i).1 && rel(step(s, i).0, step(q, i).0, n)
      else rel(step(s, i).0, q, n)
  }

  ghost predicate Simulates<S(!new), I(!new), O(!new)>(step: (S, I) -> (S, O), good: I -> bool, keep: I -> bool,
                                                       rel: (S, S, nat) -> bool)
  {
    forall s, q, i, n: nat :: Advances(step, good, keep, rel, s, q, i, n)
  }

  /** The answers to the kept inputs are those of a run over the kept inputs alone. */
  lemma {:induction false} SkippingSimulation<S(!new), I(!new), O(!new)>(step: (S, I) -> (S, O), good: I -> bool,
      keep: I -> bool, rel: (S, S, nat) -> bool, s: S, q: S, ops: seq<I>)
    requires Simulates(step, good, keep, rel) && rel(s, q, |ops|) && All(good, ops)
    ensures AnswersTo(step, keep, s, ops) == Run(step, q, Only(keep, ops)).1
    decreases |ops|
  {
    if ops != [] {
      var n: nat := |ops| - 1;
      var i, rest := ops[0], ops[1..];
      assert Advances(step, good, keep, rel, s, q, i, n);
      if keep(i) {
        assert Only(keep, ops)[1..] == Only(keep, rest);
        SkippingSimulation(step, good, keep, rel, step(s, i).0, step(q, i).0, rest);
      } else {
        assert Only(keep, ops) == Only(keep, rest);
        SkippingSimulation(step, good, keep, rel, step(s, i).0, q, rest);
      }
    }
  }

  /** With every input kept it is a simulation in the usual sense. */
  lemma Simulation<S(!new), I(!new), O(!new)>(step: (S, I) -> (S, O), good: I -> bool, keep: I -> bool,
                                              rel: (S, S, nat) -> bool, s: S, q: S, ops: seq<I>)
    requires Simulates(step, good, keep, rel) && rel(s, q, |ops|) && All(good, ops)
    requires forall i :: keep(i)
    ensures Run(step, s, ops).1 == Run(step, q, ops).1
  {
    SkippingSimulation(step, good, keep, rel, s, q, ops);
    KeepsAll(step, keep, s, ops);
  }

  lemma {:induction false} KeepsAll<S, I(!new), O>(step: (S, I) -> (S, O), keep: I -> bool, s: S, ops: seq<I>)
    requires forall i :: keep(i)
    ensures Only(keep, ops) == ops && AnswersTo(step, keep, s, ops) == Run(step, s, ops).1
    decreases |ops|
  {
    if ops != [] {
      KeepsAll(step, keep, step(s, ops[0]).0, ops[1..]);
    }
  }

  // ---- Stopping at a failure ----

  /** The inputs up to the first whose answer is a failure, with that one. */
  ghost function Served<S, I, O>(step: (S, I) -> (S, O), failed: O -> bool, s: S, ops: seq<I>): seq<I>
    decreases |ops|
  {
    if ops == [] then []
    else
      var (s1, out) := step(s, ops[0]);
      [ops[0]] + if failed(out) then [] else Served(step, failed, s1, ops[1..])
  }

  lemma {:induction false} ServedIsPrefix<S, I, O>(step: (S, I) -> (S, O), failed: O -> bool, s: S, ops: seq<I>)
    ensures Served(step, failed, s, ops) <= ops
    decreases |ops|
  {
    if ops != [] {
      ServedIsPrefix(step, failed, step(s, ops[0]).0, ops[1..]);
    }
  }

  /** All served inputs but the last succeed, and the last one only fails if inputs are left. */
  lemma {:induction false} ServedStops<S, I, O>(step: (S, I) -> (S, O), failed: O -> bool, s: S, ops: seq<I>)
    ensures var done := Served(step, failed, s, ops); var outs := Run(step, s, done).1;
      && |outs| == |done| <= |ops| && done == ops[..|done|]
      && (forall k :: 0 <= k < |outs| - 1 ==> !failed(outs[k]))
      && (|done| < |ops| ==> outs != [] && failed(outs[|outs| - 1]))
    decreases |ops|
  {
    if ops != [] {
      var (s1, out) := step(s, ops[0]);
      var done := Served(step, failed, s, ops);
      var rest := if failed(out) then [] else Served(step, failed, s1, ops[1..]);
      assert done == [ops[0]] + rest && done[0] == ops[0] && done[1..] == rest;
      ServedStops(step, failed, s1, ops[1..]);
      var outs := Run(step, s1, rest).1;
      assert forall k :: 0 < k < |outs| + 1 ==> ([out] + outs)[k] == outs[k - 1];
    }
  }

  /** The final state and the answers of such a run. */
  ghost function RunServed<S, I, O>(step: (S, I) -> (S, O), failed: O -> bool, s: S, ops: seq<I>): (S, seq<O>) {
    Run(step, s, Served(step, failed, s, ops))
  }

  ghost function Answered<S, O>(done: seq<O>, r: (S, seq<O>)): (S, seq<O>) {
    (r.0, done + r.1)
  }

  lemma ServedNothing<S, O>(r: (S, seq<O>))
    ensures Answered([], r) == r
  {
    assert [] + r.1 == r.1;
  }

  /** One more input of such a run. */
  lemma ServedStep<S, I, O>(step: (S, I) -> (S, O), failed: O -> bool, s: S, ops: seq<I>, i: nat, done: seq<O>, s1: S,
                            out: O)
    requires i < |ops| && step(s, ops[i]) == (s1, out)
    ensures Answered(done, RunServed(step, failed, s, ops[i..]))
         == if failed(out) then (s1, done + [out])
            else Answered(done + [out], RunServed(step, failed, s1, ops[i + 1..]))
  {
    var more := if failed(out) then [] else Served(step, failed, s1, ops[i + 1..]);
    ServedFirst(step, failed, s, ops, i, s1, out);
    RunFirst(step, s, ops[i], more, s1, out);
    var outs := Run(step, s1, more).1;
    assert done + ([out] + outs) == (done + [out]) + outs;
    if failed(out) {
      assert outs == [] && (done + [out]) + [] == done + [out];
    }
  }

  lemma ServedFirst<S, I, O>(step: (S, I) -> (S, O), failed: O -> bool, s: S, ops: seq<I>, i: nat, s1: S, out: O)
    requires i < |ops| && step(s, ops[i]) == (s1, out)
    ensures Served(step, failed, s, ops[i..])
         == [ops[i]] + if failed(out) then [] else Served(step, failed, s1, ops[i + 1..])
  {
    assert ops[i..][0] == ops[i] && ops[i..][1..] == ops[i + 1..];
  }

  lemma RunFirst<S, I, O>(step: (S, I) -> (S, O), s: S, op: I, more: seq<I>, s1: S, out: O)
    requires step(s, op) == (s1, out)
    ensures Run(step, s, [op] + more) == (Run(step, s1, more).0, [out] + Run(step, s1, more).1)
  {
    assert ([op] + more)[0] == op && ([op] + more)[1..] == more;
  }

  lemma ServedAll<S, I, O>(step: (S, I) -> (S, O), failed: O -> bool, s: S, ops: seq<I>, i: nat, done: seq<O>)
    requires i == |ops|
    ensures Answered(done, RunServed(step, failed, s, ops[i..])) == (s, done)
  {
    assert ops[i..] == [] && done + [] == done;
  }
}
