/** Optional values, and runs of a transition system whose steps may be refused. */
module Runs {
  datatype Option<+T> = None | Some(value: T)

  /**
   * The state after taking `actions` in order from `s`, or `None` when one of them cannot be
   * taken where it stands. `step` answers `None` for an action that has to wait or does not apply.
   */
  ghost function Run<S, A>(step: (S, A) -> Option<S>, s: S, actions: seq<A>): Option<S>
    decreases |actions|
  {
    if actions == [] then Some(s)
    else
      match step(s, actions[0])
      case None => None
      case Some(next) => Run(step, next, actions[1..])
  }

  /** Running two stretches one after the other is running their concatenation. */
  lemma {:induction false} RunConcat<S, A>(step: (S, A) -> Option<S>, s: S, first: seq<A>, second: seq<A>)
    ensures Run(step, s, first + second) ==
            match Run(step, s, first)
            case None => None
            case Some(mid) => Run(step, mid, second)
    decreases |first|
  {
    if first == [] {
      assert first + second == second;
    } else {
      assert (first + second)[0] == first[0];
      assert (first + second)[1..] == first[1..] + second;
      var next := step(s, first[0]);
      if next.Some? {
        RunConcat(step, next.value, first[1..], second);
      }
    }
  }

  /** A run of one action is that action. */
  lemma RunOne<S, A>(step: (S, A) -> Option<S>, s: S, action: A)
    ensures Run(step, s, [action]) == step(s, action)
  {
    assert [action][1..] == [];
  }

  /** Appending one action. */
  lemma RunSnoc<S, A>(step: (S, A) -> Option<S>, s: S, actions: seq<A>, action: A)
    ensures Run(step, s, actions + [action]) ==
            match Run(step, s, actions)
            case None => None
            case Some(mid) => step(mid, action)
  {
    RunConcat(step, s, actions, [action]);
    var mid := Run(step, s, actions);
    if mid.Some? {
      RunOne(step, mid.value, action);
    }
  }

  /** Every prefix of a run that goes through is a run that goes through. */
  lemma RunPrefix<S, A>(step: (S, A) -> Option<S>, s: S, actions: seq<A>, k: nat)
    requires Run(step, s, actions).Some? && k <= |actions|
    ensures Run(step, s, actions[..k]).Some?
  {
    assert actions == actions[..k] + actions[k..];
    RunConcat(step, s, actions[..k], actions[k..]);
  }

  /** What holds at the start and is kept by every step holds at the end of every run. */
  lemma {:induction false} Invariant<S(!new), A(!new)>(
    step: (S, A) -> Option<S>, inv: S -> bool, s: S, actions: seq<A>)
    requires inv(s)
    requires forall x, a :: inv(x) && step(x, a).Some? ==> inv(step(x, a).value)
    requires Run(step, s, actions).Some?
    ensures inv(Run(step, s, actions).value)
    decreases |actions|
  {
    if actions != [] {
      Invariant(step, inv, step(s, actions[0]).value, actions[1..]);
    }
  }
}
