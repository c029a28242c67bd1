/** Histories of a run, shared by the models that record one. */
module Traces {

  /** What happened so far, latest event outermost. */
  datatype Trace<+E> = Start | Then(past: Trace<E>, event: E)

  /** `early` is a moment of the run `late`. */
  ghost predicate Precedes<E>(early: Trace<E>, late: Trace<E>) {
    early == late || (late.Then? && Precedes(early, late.past))
  }

  lemma {:induction false} PrecedesTransitive<E>(first: Trace<E>, second: Trace<E>, third: Trace<E>)
    requires Precedes(first, second) && Precedes(second, third)
    ensures Precedes(first, third)
    decreases third
  {
    if second != third {
      PrecedesTransitive(first, second, third.past);
    }
  }
}
