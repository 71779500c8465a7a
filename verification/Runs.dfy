/** Runs of a state machine, and the rule that what every step keeps holds throughout. */
module Runs {

  /** states[i + 1] follows from states[i] by events[i]. */
  ghost predicate IsRun<S(!new), E(!new)>(next: (S, E, S) -> bool, states: seq<S>, events: seq<E>) {
    && |states| == |events| + 1
    && forall i | 0 <= i < |events| :: next(states[i], events[i], states[i + 1])
  }

  ghost predicate Inductive<S(!new), E(!new)>(next: (S, E, S) -> bool, inv: S -> bool) {
    forall s, e, t :: inv(s) && next(s, e, t) ==> inv(t)
  }

  lemma {:induction false} Throughout<S(!new), E(!new)>(
      next: (S, E, S) -> bool, inv: S -> bool, states: seq<S>, events: seq<E>, n: nat)
    requires IsRun(next, states, events) && n <= |events|
    requires Inductive(next, inv) && inv(states[0])
    ensures inv(states[n])
  {
    if n > 0 {
      Throughout(next, inv, states, events, n - 1);
      assert next(states[n - 1], events[n - 1], states[n]);
    }
  }

  // ---- Longer runs from shorter ones ----

  lemma Prepended<S(!new), E(!new)>(next: (S, E, S) -> bool, s: S, e: E, states: seq<S>, events: seq<E>)
    requires IsRun(next, states, events) && next(s, e, states[0])
    ensures IsRun(next, [s] + states, [e] + events)
  {
    var all, steps := [s] + states, [e] + events;
    forall i | 0 <= i < |steps| ensures next(all[i], steps[i], all[i + 1]) {
      if i > 0 {
        assert next(states[i - 1], events[i - 1], states[i]);
      }
    }
  }

  lemma Appended<S(!new), E(!new)>(next: (S, E, S) -> bool, states: seq<S>, events: seq<E>, e: E, t: S)
    requires IsRun(next, states, events) && next(states[|events|], e, t)
    ensures IsRun(next, states + [t], events + [e])
  {
    var all, steps := states + [t], events + [e];
    forall i | 0 <= i < |steps| ensures next(all[i], steps[i], all[i + 1]) {
      if i < |events| {
        assert next(states[i], events[i], states[i + 1]);
      }
    }
  }

  /** Some run with these events goes from s to t. */
  ghost predicate Leads<S(!new), E(!new)>(next: (S, E, S) -> bool, s: S, events: seq<E>, t: S) {
    exists states: seq<S> :: IsRun(next, states, events) && states[0] == s && states[|events|] == t
  }

  lemma LeadsNowhere<S(!new), E(!new)>(next: (S, E, S) -> bool, s: S)
    ensures Leads(next, s, [], s)
  {
    assert IsRun(next, [s], []);
  }

  lemma LeadsOn<S(!new), E(!new)>(next: (S, E, S) -> bool, s: S, events: seq<E>, t: S, e: E, u: S)
    requires Leads(next, s, events, t) && next(t, e, u)
    ensures Leads(next, s, events + [e], u)
  {
    var states :| IsRun(next, states, events) && states[0] == s && states[|events|] == t;
    Appended(next, states, events, e, u);
    assert (states + [u])[|events + [e]|] == u;
  }
}
