/**
 Runs of a system that moves by steps: steps that may be out of turn, which gives None, and steps that always
 succeed.
 */
module Runs {
  import opened GoStrings

  /** The state after a run; None when some step was out of turn. */
  function Run<S, A>(step: (S, A) -> Option<S>, s: S, actions: seq<A>): Option<S> {
    if actions == [] then Some(s)
    else match Run(step, s, actions[..|actions| - 1])
         case None => None
         case Some(t) => step(t, actions[|actions| - 1])
  }

  /** A run that goes through the states listed ends in the last of them. */
  lemma {:induction false} RunFollows<S, A>(step: (S, A) -> Option<S>, actions: seq<A>, states: seq<S>)
    requires |states| == |actions| + 1
    requires forall i :: 0 <= i < |actions| ==> step(states[i], actions[i]) == Some(states[i + 1])
    ensures Run(step, states[0], actions) == Some(states[|actions|])
  {
    if actions != [] {
      var n := |actions| - 1;
      assert step(states[n], actions[n]) == Some(states[n + 1]);
      RunFollows(step, actions[..n], states[..n + 1]);
    }
  }

  /** A run may be made in two parts. */
  lemma {:induction false} RunsJoin<S, A>(step: (S, A) -> Option<S>, s: S, a: seq<A>, b: seq<A>)
    requires Run(step, s, a).Some?
    ensures Run(step, s, a + b) == Run(step, Run(step, s, a).value, b)
  {
    if b == [] {
      assert a + b == a;
    } else {
      assert (a + b)[..|a + b| - 1] == a + b[..|b| - 1];
      RunsJoin(step, s, a, b[..|b| - 1]);
    }
  }

  /** The state after some events, each of which moves the system. */
  function Fold<S, E>(step: (S, E) -> S, s: S, events: seq<E>): S {
    if events == [] then s else step(Fold(step, s, events[..|events| - 1]), events[|events| - 1])
  }

  lemma {:induction false} FoldNext<S, E>(step: (S, E) -> S, s: S, events: seq<E>, n: nat)
    requires 0 < n <= |events|
    ensures Fold(step, s, events[..n]) == step(Fold(step, s, events[..n - 1]), events[n - 1])
  {
    assert events[..n][..n - 1] == events[..n - 1];
  }

  /** What holds before event `m`, and is kept by every event from then on, holds before event `n`. */
  lemma {:induction false} FoldKeeps<S, E>(step: (S, E) -> S, s: S, events: seq<E>, m: nat, n: nat,
                                           holds: (S, nat) -> bool)
    requires m <= n <= |events| && holds(Fold(step, s, events[..m]), m)
    requires forall t, k :: m <= k < n && holds(t, k) ==> holds(step(t, events[k]), k + 1)
    ensures holds(Fold(step, s, events[..n]), n)
  {
    if m < n {
      FoldKeeps(step, s, events, m, n - 1, holds);
      FoldNext(step, s, events, n);
    }
  }
}
