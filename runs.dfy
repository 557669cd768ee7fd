/** Runs of a step function: the states a loop passes through when the
    state after iteration `i` is `step(i, state before it)`. */
module Runs {
  /** `states` starts at `init`, and each state is `step` applied to the one
      before it; at most `bound` steps are taken. */
  ghost predicate IsRun<S>(step: (nat, S) -> S, init: S, bound: nat, states: seq<S>) {
    1 <= |states| <= bound + 1 && states[0] == init
    && forall i :: 0 <= i < |states| - 1 ==> states[i + 1] == step(i, states[i])
  }

  /** The states after 0, 1, ..., `n` steps. */
  function Unroll<S>(step: (nat, S) -> S, init: S, n: nat): (states: seq<S>)
    ensures |states| == n + 1 && states[0] == init
  {
    if n == 0 then [init]
    else
      var prev := Unroll(step, init, n - 1);
      prev + [step(n - 1, prev[n - 1])]
  }

  /** One more step extends a run. */
  lemma Extend<S>(step: (nat, S) -> S, init: S, bound: nat, states: seq<S>, t: nat)
    requires IsRun(step, init, bound, states) && t == |states| - 1 && t < bound
    ensures IsRun(step, init, bound, states + [step(t, states[t])])
  {
    var next := states + [step(t, states[t])];
    forall i | 0 <= i < |next| - 1 ensures next[i + 1] == step(i, next[i]) {
      assert next[i] == states[i];
    }
  }

  /** `Unroll` is a run. */
  lemma {:induction false} UnrollIsRun<S>(step: (nat, S) -> S, init: S, bound: nat, n: nat)
    requires n <= bound
    ensures IsRun(step, init, bound, Unroll(step, init, n))
  {
    if n > 0 {
      UnrollIsRun(step, init, bound, n - 1);
      Extend(step, init, bound, Unroll(step, init, n - 1), n - 1);
    }
  }

  /** A run is determined by its start: every run of `n` steps is
      `Unroll(n)`. */
  lemma {:induction false} RunUnique<S>(step: (nat, S) -> S, init: S, bound: nat, n: nat, states: seq<S>)
    requires IsRun(step, init, bound, states) && |states| == n + 1
    ensures states == Unroll(step, init, n)
  {
    if n > 0 {
      var prev := states[..n];
      assert IsRun(step, init, bound, prev) by {
        forall i | 0 <= i < |prev| - 1 ensures prev[i + 1] == step(i, prev[i]) {
          assert prev[i + 1] == states[i + 1] && prev[i] == states[i];
        }
      }
      RunUnique(step, init, bound, n - 1, prev);
      assert states == prev + [states[n]];
    }
  }
}
