/** Cooperative cancellation. */
module Checkpoints {

  /** The operation-control callback, as the answers it gives in turn. */
  class Control {
    const answers: nat -> bool
    var calls: nat

    constructor (answers: nat -> bool)
      ensures this.answers == answers && calls == 0
    {
      this.answers, calls := answers, 0;
    }

    /** Since `start`, every question was answered with consent; or, if not `ok`, the last one
        was refused. */
    ghost predicate Answered(start: nat, ok: bool)
      reads this
    {
      if ok then start <= calls && forall k :: start <= k < calls ==> answers(k)
      else start < calls && !answers(calls - 1)
    }

    method Proceed() returns (ok: bool)
      modifies this
      ensures ok == answers(old(calls)) && calls == old(calls) + 1
      ensures Answered(old(calls), ok)
    {
      ok := answers(calls);
      calls := calls + 1;
    }
  }
}
