/**
 Serving requests one after another against a process-wide state, as a single worker
 does. Both versions of the app are instances of this: their `step` is the state
 change one request makes.
 */
module Serving {

  /** The state after serving `reqs` in order, starting from `s`. */
  function Run<S, R>(step: (S, R) -> S, s: S, reqs: seq<R>): S
    decreases |reqs|
  {
    if |reqs| == 0 then s else Run(step, step(s, reqs[0]), reqs[1..])
  }

  /** Serving one more request extends the run by one step. */
  lemma {:induction false} RunAppend<S, R>(step: (S, R) -> S, s: S, reqs: seq<R>, req: R)
    ensures Run(step, s, reqs + [req]) == step(Run(step, s, reqs), req)
    decreases |reqs|
  {
    if |reqs| > 0 {
      assert (reqs + [req])[1..] == reqs[1..] + [req];
      RunAppend(step, step(s, reqs[0]), reqs[1..], req);
    } else {
      assert [] + [req] == [req];
    }
  }
}
