/** Runs of a state machine, and the induction that proves an invariant of all of them. */
module Runs {

  ghost predicate IsRun<S(!new)>(run: seq<S>, init: S -> bool, next: (S, S) -> bool) {
    && |run| > 0
    && init(run[0])
    && forall i :: 0 <= i < |run| - 1 ==> next(run[i], run[i + 1])
  }

  ghost predicate Reachable<S(!new)>(s: S, init: S -> bool, next: (S, S) -> bool) {
    exists run :: IsRun(run, init, next) && run[|run| - 1] == s
  }

  lemma {:induction false} EndOfRun<S(!new)>(run: seq<S>, init: S -> bool, next: (S, S) -> bool, inv: S -> bool)
    requires IsRun(run, init, next)
    requires forall s :: init(s) ==> inv(s)
    requires forall s, s' :: inv(s) && next(s, s') ==> inv(s')
    ensures inv(run[|run| - 1])
  {
    var n := |run| - 1;
    if n > 0 {
      EndOfRun(run[..n], init, next, inv);
      assert next(run[n - 1], run[n]);
    }
  }

  /** What holds at the beginning and is kept by every step holds in every reachable state. */
  lemma Invariant<S(!new)>(s: S, init: S -> bool, next: (S, S) -> bool, inv: S -> bool)
    requires Reachable(s, init, next)
    requires forall s :: init(s) ==> inv(s)
    requires forall s, s' :: inv(s) && next(s, s') ==> inv(s')
    ensures inv(s)
  {
    var run :| IsRun(run, init, next) && run[|run| - 1] == s;
    EndOfRun(run, init, next, inv);
  }

  lemma Extend<S(!new)>(s: S, s': S, init: S -> bool, next: (S, S) -> bool)
    requires Reachable(s, init, next) && next(s, s')
    ensures Reachable(s', init, next)
  {
    var run :| IsRun(run, init, next) && run[|run| - 1] == s;
    assert IsRun(run + [s'], init, next);
    assert (run + [s'])[|run|] == s';
  }
}
