/** Runs of a state machine given by a total step function. */
module Behaviours {
  /** The state after a sequence of steps. */
  function Run<S, A>(apply: (S, A) -> S, s: S, steps: seq<A>): S
    decreases |steps|
  {
    if steps == [] then s else Run(apply, apply(s, steps[0]), steps[1..])
  }

  lemma {:induction false} RunSplits<S, A>(apply: (S, A) -> S, s: S, steps: seq<A>, more: seq<A>)
    ensures Run(apply, s, steps + more) == Run(apply, Run(apply, s, steps), more)
    decreases |steps|
  {
    if steps == [] {
      assert steps + more == more;
    } else {
      assert (steps + more)[0] == steps[0] && (steps + more)[1..] == steps[1..] + more;
      RunSplits(apply, apply(s, steps[0]), steps[1..], more);
    }
  }

  lemma {:induction false} RunCons<S, A>(apply: (S, A) -> S, s: S, step: A, rest: seq<A>)
    ensures Run(apply, s, [step] + rest) == Run(apply, apply(s, step), rest)
  {
    assert ([step] + rest)[1..] == rest;
  }
}
