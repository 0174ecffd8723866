/** Runs of a step relation, and the states they reach. */
module Runs {

  ghost predicate IsRunOf<S(!new), M(!new)>(start: S, takes: (S, M, S) -> bool, run: seq<S>, moves: seq<M>) {
    && |run| == |moves| + 1 && run[0] == start
    && forall k | 0 <= k < |moves| :: takes(run[k], moves[k], run[k + 1])
  }

  ghost predicate ReachableBy<S(!new), M(!new)>(start: S, takes: (S, M, S) -> bool, s: S) {
    exists run: seq<S>, moves: seq<M> :: IsRunOf(start, takes, run, moves) && run[|moves|] == s
  }

  lemma ReachStart<S(!new), M(!new)>(start: S, takes: (S, M, S) -> bool)
    ensures ReachableBy(start, takes, start)
  {
    assert IsRunOf(start, takes, [start], []);
  }

  lemma ExtendRun<S(!new), M(!new)>(start: S, takes: (S, M, S) -> bool, run: seq<S>, moves: seq<M>, move: M, next: S)
    requires IsRunOf(start, takes, run, moves) && takes(run[|moves|], move, next)
    ensures IsRunOf(start, takes, run + [next], moves + [move])
  {
    var longer, more := run + [next], moves + [move];
    forall k | 0 <= k < |more| ensures takes(longer[k], more[k], longer[k + 1]) {
      if k < |moves| { assert longer[k] == run[k] && longer[k + 1] == run[k + 1] && more[k] == moves[k]; }
    }
  }

  /** What a reachable state leads to is reachable. */
  lemma Reach<S(!new), M(!new)>(start: S, takes: (S, M, S) -> bool, s: S, move: M, next: S)
    requires ReachableBy(start, takes, s) && takes(s, move, next)
    ensures ReachableBy(start, takes, next)
  {
    var run: seq<S>, moves: seq<M> :| IsRunOf(start, takes, run, moves) && run[|moves|] == s;
    ExtendRun(start, takes, run, moves, move, next);
  }

  lemma {:induction false} KeptAlong<S(!new), M(!new)>(start: S, takes: (S, M, S) -> bool, kept: S -> bool, run: seq<S>,
                                                       moves: seq<M>, k: nat)
    requires IsRunOf(start, takes, run, moves) && k < |run| && kept(start)
    requires forall s, m, t | kept(s) && takes(s, m, t) :: kept(t)
    ensures kept(run[k])
  {
    if k > 0 {
      KeptAlong(start, takes, kept, run, moves, k - 1);
      assert takes(run[k - 1], moves[k - 1], run[k - 1 + 1]);
    }
  }

  /** What the start has and every step keeps, every reachable state has. */
  lemma KeptByAll<S(!new), M(!new)>(start: S, takes: (S, M, S) -> bool, kept: S -> bool, s: S)
    requires ReachableBy(start, takes, s) && kept(start)
    requires forall s, m, t | kept(s) && takes(s, m, t) :: kept(t)
    ensures kept(s)
  {
    var run: seq<S>, moves: seq<M> :| IsRunOf(start, takes, run, moves) && run[|moves|] == s;
    KeptAlong(start, takes, kept, run, moves, |moves|);
  }
}
