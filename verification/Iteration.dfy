/** Repeated steps and occurrence counts. */
module Iteration {

  /** The state after `n` steps. */
  function Iterated<S>(step: S -> S, s: S, n: nat): S {
    if n == 0 then s else step(Iterated(step, s, n - 1))
  }

  /** The first step first. */
  lemma {:induction false} IteratedFirst<S>(step: S -> S, s: S, n: nat)
    ensures Iterated(step, s, n + 1) == Iterated(step, step(s), n)
  {
    if n > 0 {
      IteratedFirst(step, s, n - 1);
    }
  }

  /** `counts[k]++` */
  function Bump<K(==)>(counts: map<K, nat>, k: K): map<K, nat> {
    counts[k := (if k in counts then counts[k] else 0) + 1]
  }
}
