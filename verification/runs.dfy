/** Runs of a transition system, given by its initial states and its steps. */
module Runs {

  ghost predicate Lawful<S>(run: seq<S>, init: S -> bool, next: (S, S) -> bool, i: nat)
    requires i < |run|
  {
    if i == 0 then init(run[0]) else next(run[i - 1], run[i])
  }

  ghost predicate IsRun<S>(run: seq<S>, init: S -> bool, next: (S, S) -> bool) {
    |run| > 0 && forall i: nat | i < |run| :: Lawful(run, init, next, i)
  }

  lemma StaysLawful<S>(run: seq<S>, s': S, init: S -> bool, next: (S, S) -> bool, i: nat)
    requires i < |run| && Lawful(run, init, next, i)
    ensures Lawful(run + [s'], init, next, i)
  {
    assert i > 0 ==> (run + [s'])[i - 1] == run[i - 1];
  }

  /** A run goes on by any step from its last state. */
  lemma Extend<S>(run: seq<S>, s': S, init: S -> bool, next: (S, S) -> bool) returns (run': seq<S>)
    requires IsRun(run, init, next) && next(run[|run| - 1], s')
    ensures run' == run + [s'] && IsRun(run', init, next)
  {
    run' := run + [s'];
    forall i: nat | i < |run'|
      ensures Lawful(run', init, next, i)
    {
      if i < |run| {
        StaysLawful(run, s', init, next, i);
      } else {
        assert run'[i - 1] == run[|run| - 1] && run'[i] == s';
      }
    }
  }

  lemma Start<S>(s: S, init: S -> bool, next: (S, S) -> bool)
    requires init(s)
    ensures IsRun([s], init, next)
  {
    assert forall i: nat | i < |[s]| :: i == 0 && Lawful([s], init, next, i);
  }

  /** Some run ends in s. */
  ghost predicate Reachable<S(!new)>(s: S, init: S -> bool, next: (S, S) -> bool) {
    exists run :: IsRun(run, init, next) && run[|run| - 1] == s
  }

  lemma Witness<S(!new)>(s: S, init: S -> bool, next: (S, S) -> bool) returns (run: seq<S>)
    requires Reachable(s, init, next)
    ensures IsRun(run, init, next) && |run| > 0 && run[|run| - 1] == s
  {
    run :| IsRun(run, init, next) && run[|run| - 1] == s;
  }

  lemma ReachableStart<S(!new)>(s: S, init: S -> bool, next: (S, S) -> bool)
    requires init(s)
    ensures Reachable(s, init, next)
  {
    Start(s, init, next);
    assert [s][|[s]| - 1] == s;
  }

  lemma ReachableStep<S(!new)>(s: S, s': S, init: S -> bool, next: (S, S) -> bool)
    requires Reachable(s, init, next) && next(s, s')
    ensures Reachable(s', init, next)
  {
    var run := Witness(s, init, next);
    var run' := Extend(run, s', init, next);
    assert run'[|run'| - 1] == s';
  }
}
