/** Runs of a step that may ask to be run again: the shape of a save whose
    `afterSave` callback saves once more. Stated for any state and any
    step, so that the facts about the chain do not depend on what the step
    computes. */
module Chain {
  /** The state after `n` steps from `x`. */
  function Iterate<T>(step: T -> T, x: T, n: nat): T
    decreases n
  {
    if n == 0 then x else Iterate(step, step(x), n - 1)
  }

  /** How many times the step is run again when the step from the `n`-th
      state is known not to ask: the runs stop at the first state whose
      step does not ask. */
  function Stops<T>(step: T -> T, again: T -> bool, x: T, n: nat): (k: nat)
    ensures k <= n
    decreases n
  {
    if n == 0 || !again(x) then 0 else 1 + Stops(step, again, step(x), n - 1)
  }

  /** The state the runs leave: the step from the state where they stop. */
  function Last<T>(step: T -> T, again: T -> bool, x: T, n: nat): T
    decreases n
  {
    if n == 0 || !again(x) then step(x) else Last(step, again, step(x), n - 1)
  }

  /** One step more is one step from the next state. */
  lemma {:induction false} IterateLast<T>(step: T -> T, x: T, n: nat)
    ensures Iterate(step, x, n + 1) == step(Iterate(step, x, n))
    decreases n
  {
    if n > 0 {
      IterateLast(step, step(x), n - 1);
    }
  }

  /** Every step before the stop asks to run again. */
  lemma {:induction false} AgainBeforeStop<T>(step: T -> T, again: T -> bool, x: T, n: nat, j: nat)
    requires j < Stops(step, again, x, n)
    ensures again(Iterate(step, x, j))
    decreases j
  {
    if j > 0 {
      AgainBeforeStop(step, again, step(x), n - 1, j - 1);
    }
  }

  /** The step at the stop does not ask, when the one at `n` does not. */
  lemma {:induction false} NotAgainAtStop<T>(step: T -> T, again: T -> bool, x: T, n: nat)
    requires !again(Iterate(step, x, n))
    ensures !again(Iterate(step, x, Stops(step, again, x, n)))
    decreases n
  {
    if n > 0 && again(x) {
      NotAgainAtStop(step, again, step(x), n - 1);
    }
  }

  /** The state left is the step from the state at the stop. */
  lemma {:induction false} LastIsStepAtStop<T>(step: T -> T, again: T -> bool, x: T, n: nat)
    ensures Last(step, again, x, n) == Iterate(step, x, Stops(step, again, x, n) + 1)
    decreases n
  {
    if n > 0 && again(x) {
      LastIsStepAtStop(step, again, step(x), n - 1);
    }
  }
}
