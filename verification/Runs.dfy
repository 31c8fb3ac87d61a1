/** Runs of a step function, and one run following another. */
module Runs {
  import opened Images

  /** `n` steps from `c`; None when one of them is not possible. */
  function Run<C>(step: C -> Option<C>, c: C, n: nat): Option<C> {
    if n == 0 then Some(c)
    else match step(c) case None => None case Some(next) => Run(step, next, n - 1)
  }

  /** A run goes on from where a run led. */
  lemma {:induction false} RunOn<C>(step: C -> Option<C>, c: C, n: nat, c1: C, m: nat)
    requires Run(step, c, n) == Some(c1)
    ensures Run(step, c, n + m) == Run(step, c1, m)
  {
    if n > 0 {
      RunOn(step, step(c).value, n - 1, c1, m);
    }
  }

  /** Every possible step of the first machine is matched by a step of the second. */
  ghost predicate Simulates<A(!new), B(!new)>(step: A -> Option<A>, other: B -> Option<B>, related: (A, B) -> bool) {
    forall a, b :: related(a, b) && step(a).Some? ==> other(b).Some? && related(step(a).value, other(b).value)
  }

  lemma {:induction false} RunsSimulate<A(!new), B(!new)>(step: A -> Option<A>, other: B -> Option<B>,
                                                          related: (A, B) -> bool, a: A, b: B, n: nat)
    requires Simulates(step, other, related) && related(a, b) && Run(step, a, n).Some?
    ensures Run(other, b, n).Some? && related(Run(step, a, n).value, Run(other, b, n).value)
  {
    if n > 0 {
      RunsSimulate(step, other, related, step(a).value, other(b).value, n - 1);
    }
  }

  /** The first `n` elements worked into a state one after another; None when one of them is refused. */
  function Fold<S, E>(step: (S, E) -> Option<S>, s: S, es: seq<E>, n: nat): Option<S>
    requires n <= |es|
  {
    if n == 0 then Some(s)
    else match Fold(step, s, es, n - 1) case None => None case Some(before) => step(before, es[n - 1])
  }

  /** What is refused stays refused. */
  lemma {:induction false} RefusedStays<S, E>(step: (S, E) -> Option<S>, s: S, es: seq<E>, n: nat, m: nat)
    requires n <= m <= |es| && Fold(step, s, es, n).None?
    ensures Fold(step, s, es, m).None?
  {
    if n < m {
      RefusedStays(step, s, es, n, m - 1);
    }
  }

  /**
   A fold that keeps an invariant: it succeeds exactly when every element is fit, given that in a state
   with the invariant an element is accepted exactly when it is fit, and the invariant is kept.
   */
  lemma {:induction false} FoldKeeps<S(!new), E(!new)>(step: (S, E) -> Option<S>, s: S, es: seq<E>, n: nat,
                                                       holds: (nat, S) -> bool, fit: E -> bool)
    requires n <= |es| && holds(0, s)
    requires forall k: nat, t :: k < n && holds(k, t) ==>
               (step(t, es[k]).Some? <==> fit(es[k])) && (step(t, es[k]).Some? ==> holds(k + 1, step(t, es[k]).value))
    ensures Fold(step, s, es, n).Some? <==> forall k :: 0 <= k < n ==> fit(es[k])
    ensures Fold(step, s, es, n).Some? ==> holds(n, Fold(step, s, es, n).value)
  {
    if n > 0 {
      FoldKeeps(step, s, es, n - 1, holds, fit);
    }
  }
}
