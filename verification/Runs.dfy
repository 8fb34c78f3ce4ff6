/**
 * Runs of a state machine, given by a function that performs one step, or nothing when the
 * step is not possible. A run is a sequence of steps, each possible where it is taken.
 */
module Runs {
  import opened Wrappers

  function After<S, A>(next: (S, A) -> Option<S>, s: S, steps: seq<A>): (r: Option<S>)
    decreases |steps|
  {
    if steps == [] then Some(s)
    else
      match next(s, steps[0])
      case None => None
      case Some(s') => After(next, s', steps[1..])
  }

  /** A relation between states that every step respects, and that is transitive. */
  ghost predicate Respects<S(!new), A(!new)>(
    next: (S, A) -> Option<S>, inv: S -> bool, rel: (S, S) -> bool)
  {
    && (forall s, a :: inv(s) && next(s, a).Some? ==>
          inv(next(s, a).value) && rel(s, next(s, a).value))
    && (forall s :: rel(s, s))
    && forall s, t, u :: rel(s, t) && rel(t, u) ==> rel(s, u)
  }

  /** A run keeps an invariant that every step keeps, and relates its two ends. */
  lemma {:induction false} Holds<S(!new), A(!new)>(
    next: (S, A) -> Option<S>, inv: S -> bool, rel: (S, S) -> bool, s: S, steps: seq<A>)
    requires Respects(next, inv, rel) && inv(s) && After(next, s, steps).Some?
    ensures inv(After(next, s, steps).value) && rel(s, After(next, s, steps).value)
    decreases |steps|
  {
    if steps != [] {
      Holds(next, inv, rel, next(s, steps[0]).value, steps[1..]);
    }
  }

  lemma {:induction false} Append<S, A>(
    next: (S, A) -> Option<S>, s: S, xs: seq<A>, ys: seq<A>)
    ensures After(next, s, xs + ys)
            == match After(next, s, xs)
               case None => None
               case Some(t) => After(next, t, ys)
    decreases |xs|
  {
    if xs == [] {
      assert xs + ys == ys;
    } else {
      assert (xs + ys)[0] == xs[0] && (xs + ys)[1..] == xs[1..] + ys;
      if next(s, xs[0]).Some? {
        Append(next, next(s, xs[0]).value, xs[1..], ys);
      }
    }
  }

  lemma Extend<S, A>(next: (S, A) -> Option<S>, s: S, xs: seq<A>, t: S, a: A)
    requires After(next, s, xs) == Some(t)
    ensures After(next, s, xs + [a]) == next(t, a)
  {
    Append(next, s, xs, [a]);
    assert [a][1..] == [];
  }

  /** A run can be followed step by step. */
  lemma StepOf<S, A>(next: (S, A) -> Option<S>, s: S, steps: seq<A>, i: nat, t: S)
    requires After(next, s, steps).Some? && i < |steps|
    requires After(next, s, steps[..i]) == Some(t)
    ensures next(t, steps[i]).Some?
    ensures After(next, s, steps[..i + 1]) == next(t, steps[i])
  {
    assert steps == steps[..i] + steps[i..];
    Append(next, s, steps[..i], steps[i..]);
    assert steps[..i + 1] == steps[..i] + [steps[i]];
    Extend(next, s, steps[..i], t, steps[i]);
  }

  /** The state before the last step of a run. */
  lemma LastStep<S, A>(next: (S, A) -> Option<S>, s: S, steps: seq<A>) returns (t: S)
    requires After(next, s, steps).Some? && steps != []
    ensures After(next, s, steps[..|steps| - 1]) == Some(t)
    ensures next(t, steps[|steps| - 1]) == After(next, s, steps)
  {
    var init, last := steps[..|steps| - 1], steps[|steps| - 1];
    assert steps == init + [last];
    Append(next, s, init, [last]);
    t := After(next, s, init).value;
    Extend(next, s, init, t, last);
  }
}
