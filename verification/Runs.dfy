/** Runs of a state machine given by its start states and its step relation. */
module Runs {

  ghost predicate ReachedIn<S(!new)>(start: S -> bool, step: (S, S) -> bool, s: S, k: nat)
    decreases k
  {
    if k == 0 then start(s) else exists p :: ReachedIn(start, step, p, k - 1) && step(p, s)
  }

  /** `s` is the last state of some run. */
  ghost predicate Reached<S(!new)>(start: S -> bool, step: (S, S) -> bool, s: S) {
    exists k: nat :: ReachedIn(start, step, s, k)
  }

  lemma ReachedStart<S(!new)>(start: S -> bool, step: (S, S) -> bool, s: S)
    requires start(s)
    ensures Reached(start, step, s)
  {
    assert ReachedIn(start, step, s, 0);
  }

  lemma ReachedStep<S(!new)>(start: S -> bool, step: (S, S) -> bool, s: S, s': S)
    requires Reached(start, step, s) && step(s, s')
    ensures Reached(start, step, s')
  {
    var k: nat :| ReachedIn(start, step, s, k);
    assert ReachedIn(start, step, s', k + 1);
  }

  /** What holds at the start and is kept by every step holds in every reachable state. */
  lemma Invariant<S(!new)>(start: S -> bool, step: (S, S) -> bool, inv: S -> bool, s: S)
    requires forall a :: start(a) ==> inv(a)
    requires forall a, b :: inv(a) && step(a, b) ==> inv(b)
    requires Reached(start, step, s)
    ensures inv(s)
  {
    var k: nat :| ReachedIn(start, step, s, k);
    InvariantIn(start, step, inv, s, k);
  }

  lemma {:induction false} InvariantIn<S(!new)>(start: S -> bool, step: (S, S) -> bool, inv: S -> bool, s: S, k: nat)
    requires forall a :: start(a) ==> inv(a)
    requires forall a, b :: inv(a) && step(a, b) ==> inv(b)
    requires ReachedIn(start, step, s, k)
    ensures inv(s)
    decreases k
  {
    if k > 0 {
      var p :| ReachedIn(start, step, p, k - 1) && step(p, s);
      InvariantIn(start, step, inv, p, k - 1);
    }
  }
}
