/**
  Runs of a machine, state by state: `steps` says what each event may make of a state.
 */
module Runs {
  ghost predicate IsRun<S, E>(steps: (S, E, S) -> bool, path: seq<S>, es: seq<E>) {
    |path| == |es| + 1 && forall i :: 0 <= i < |es| ==> steps(path[i], es[i], path[i + 1])
  }

  lemma RunNone<S, E>(steps: (S, E, S) -> bool, s: S, es: seq<E>)
    ensures IsRun(steps, [s], es[..0])
  {
  }

  lemma RunOn<S, E>(steps: (S, E, S) -> bool, path: seq<S>, es: seq<E>, i: nat, t: S)
    requires i < |es| && IsRun(steps, path, es[..i]) && steps(path[i], es[i], t)
    ensures IsRun(steps, path + [t], es[..i + 1])
  {
    var p := path + [t];
    forall k | 0 <= k <= i ensures steps(p[k], es[k], p[k + 1]) {
      if k < i { assert steps(path[k], es[..i][k], path[k + 1]); }
    }
  }

  lemma RunInit<S, E>(steps: (S, E, S) -> bool, path: seq<S>, es: seq<E>)
    requires IsRun(steps, path, es) && es != []
    ensures IsRun(steps, path[..|es|], es[..|es| - 1]) && steps(path[|es| - 1], es[|es| - 1], path[|es|])
  {
    var p, n := path[..|es|], |es| - 1;
    forall k | 0 <= k < n ensures steps(p[k], es[..n][k], p[k + 1]) {
      assert steps(path[k], es[k], path[k + 1]);
    }
  }
}
