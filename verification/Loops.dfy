/**
 * Loops as functions that give the next state, or none when the loop ends.  A loop over finitely many states
 * ends if and only if it does not come to a state twice.
 */
module Loops {
  import opened Options
  import opened Sets

  /** The loop makes n turns. */
  predicate RunsFor<S>(step: S -> Option<S>, s: S, n: nat)
    decreases n
  {
    n == 0 || (step(s).Some? && RunsFor(step, step(s).value, n - 1))
  }

  function After<S>(step: S -> Option<S>, s: S, n: nat): S
    requires RunsFor(step, s, n)
    decreases n
  {
    if n == 0 then s else After(step, step(s).value, n - 1)
  }

  /** The loop makes turns for ever. */
  ghost predicate Endless<S(!new)>(step: S -> Option<S>, s: S) { forall n: nat :: RunsFor(step, s, n) }

  /** The states after i and after j turns are the same. */
  ghost predicate ComesBack<S>(step: S -> Option<S>, s: S, i: nat, j: nat) {
    i < j && RunsFor(step, s, i) && RunsFor(step, s, j) && After(step, s, i) == After(step, s, j)
  }

  /** After n turns the loop ends. */
  ghost predicate EndsAfter<S>(step: S -> Option<S>, s: S, n: nat) {
    RunsFor(step, s, n) && step(After(step, s, n)).None?
  }

  lemma {:induction false} RunsOn<S>(step: S -> Option<S>, s: S, n: nat, m: nat)
    requires RunsFor(step, s, n)
    ensures RunsFor(step, s, n + m) <==> RunsFor(step, After(step, s, n), m)
    ensures RunsFor(step, s, n + m) ==> After(step, s, n + m) == After(step, After(step, s, n), m)
    decreases n
  {
    if n > 0 { RunsOn(step, step(s).value, n - 1, m); }
  }

  lemma {:induction false} RunsLess<S>(step: S -> Option<S>, s: S, n: nat, m: nat)
    requires RunsFor(step, s, n) && m <= n
    ensures RunsFor(step, s, m)
    decreases m
  {
    if m > 0 { RunsLess(step, step(s).value, n - 1, m - 1); }
  }

  lemma {:induction false} RunsOrEnds<S>(step: S -> Option<S>, s: S, n: nat)
    ensures RunsFor(step, s, n) || exists k: nat :: k < n && EndsAfter(step, s, k)
    decreases n
  {
    if n > 0 {
      if step(s).None? {
        assert EndsAfter(step, s, 0);
      } else {
        RunsOrEnds(step, step(s).value, n - 1);
        if k: nat :| k < n - 1 && EndsAfter(step, step(s).value, k) { assert EndsAfter(step, s, k + 1); }
      }
    }
  }

  /** Going round: a loop that has come back makes any number of turns. */
  lemma {:induction false} BackMeansEndless<S>(step: S -> Option<S>, s: S, i: nat, j: nat, n: nat)
    requires ComesBack(step, s, i, j)
    ensures RunsFor(step, s, n)
    decreases n
  {
    hide RunsFor, After;
    if n <= j {
      RunsLess(step, s, j, n);
    } else {
      BackMeansEndless(step, s, i, j, n - (j - i));
      RunsOn(step, s, i, n - j);
      RunsOn(step, s, j, n - j);
    }
  }

  // ----- finitely many states -----

  /** `all` holds the first state and with a state the next one, except the ones at which the loop ends. */
  ghost predicate Closed<S(!new)>(step: S -> Option<S>, s: S, all: set<S>) {
    && s in all
    && forall x, y :: x in all && step(x) == Some(y) && step(y).Some? ==> y in all
  }

  ghost predicate StandsAt<S>(step: S -> Option<S>, s: S, i: nat, x: S) {
    RunsFor(step, s, i) && After(step, s, i) == x
  }

  /** The states after fewer than n turns. */
  ghost function Visited<S>(step: S -> Option<S>, s: S, n: nat): (r: set<S>)
    requires RunsFor(step, s, n)
    ensures forall x :: x in r ==> exists i: nat :: i < n && StandsAt(step, s, i, x)
    decreases n
  {
    if n == 0 then {}
    else
      RunsLess(step, s, n, n - 1);
      assert StandsAt(step, s, n - 1, After(step, s, n - 1));
      Visited(step, s, n - 1) + {After(step, s, n - 1)}
  }

  lemma {:induction false} VisitedIsClosed<S(!new)>(step: S -> Option<S>, s: S, all: set<S>, i: nat)
    requires Closed(step, s, all) && RunsFor(step, s, i + 1)
    ensures RunsFor(step, s, i) && After(step, s, i) in all
    decreases i
  {
    hide RunsFor, After;
    RunsLess(step, s, i + 1, i);
    RunsOn(step, s, i, 1);
    TurnIsStep(step, After(step, s, i));
    if i == 0 {
      NoTurn(step, s);
    } else {
      VisitedIsClosed(step, s, all, i - 1);
      RunsOn(step, s, i - 1, 1);
      TurnIsStep(step, After(step, s, i - 1));
    }
  }

  lemma {:induction false} TurnIsStep<S>(step: S -> Option<S>, s: S)
    ensures RunsFor(step, s, 1) <==> step(s).Some?
    ensures step(s).Some? ==> After(step, s, 1) == step(s).value
  {
    assert step(s).Some? ==> RunsFor(step, step(s).value, 0);
  }

  lemma {:induction false} NoTurn<S>(step: S -> Option<S>, s: S)
    ensures RunsFor(step, s, 0) && After(step, s, 0) == s
  {
  }

  lemma {:induction false} NewStates<S>(step: S -> Option<S>, s: S, n: nat)
    requires RunsFor(step, s, n)
    requires forall i: nat, j: nat :: i < j < n ==> !ComesBack(step, s, i, j)
    ensures |Visited(step, s, n)| == n
    decreases n
  {
    hide RunsFor, After;
    if n > 0 {
      RunsLess(step, s, n, n - 1);
      NewStates(step, s, n - 1);
      var last := After(step, s, n - 1);
      forall i: nat | i < n - 1 ensures !StandsAt(step, s, i, last) {
        assert !ComesBack(step, s, i, n - 1);
      }
    }
  }

  /** Pigeonhole: a loop with more turns than states has come back. */
  lemma {:induction false} LongRunComesBack<S(!new)>(step: S -> Option<S>, s: S, all: set<S>)
    requires Closed(step, s, all) && RunsFor(step, s, |all| + 1)
    ensures exists i: nat, j: nat :: j <= |all| && ComesBack(step, s, i, j)
  {
    hide RunsFor, After, Closed, ComesBack;
    var n := |all| + 1;
    forall x | x in Visited(step, s, n) ensures x in all {
      var k: nat :| k < n && StandsAt(step, s, k, x);
      RunsLess(step, s, n, k + 1);
      VisitedIsClosed(step, s, all, k);
    }
    SubsetSize(Visited(step, s, n), all);
    if forall i: nat, j: nat :: j <= |all| ==> !ComesBack(step, s, i, j) { NewStates(step, s, n); }
  }

  /** A loop makes turns for ever if and only if it comes back, and this is known after as many turns as there are
      states, and one. */
  lemma {:induction false} EndlessIff<S(!new)>(step: S -> Option<S>, s: S, all: set<S>)
    requires Closed(step, s, all)
    ensures Endless(step, s) <==> exists i: nat, j: nat :: j <= |all| && ComesBack(step, s, i, j)
    ensures Endless(step, s) <==> RunsFor(step, s, |all| + 1)
  {
    hide RunsFor, Closed, ComesBack;
    if RunsFor(step, s, |all| + 1) {
      LongRunComesBack(step, s, all);
      var i: nat, j: nat :| j <= |all| && ComesBack(step, s, i, j);
      AlwaysOn(step, s, i, j);
    } else {
      assert !Endless(step, s);
      forall i: nat, j: nat | j <= |all| ensures !ComesBack(step, s, i, j) {
        if ComesBack(step, s, i, j) { AlwaysOn(step, s, i, j); }
      }
    }
  }

  lemma {:induction false} AlwaysOn<S(!new)>(step: S -> Option<S>, s: S, i: nat, j: nat)
    requires ComesBack(step, s, i, j)
    ensures Endless(step, s)
  {
    hide RunsFor, ComesBack;
    forall n: nat ensures RunsFor(step, s, n) { BackMeansEndless(step, s, i, j, n); }
  }
}
