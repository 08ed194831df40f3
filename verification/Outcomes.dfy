/**
 How one call of the decoder can end. The source is C: besides returning a value, a call
 may touch memory it does not own, or loop without making progress. Both are kept apart
 from ordinary results so that no theorem about a result has to assume them away.
 */
module Outcomes {

  datatype Option<+T> = None | Some(value: T)

  datatype Outcome<+T> =
    | Done(value: T)
    | Undefined   // reads or copies outside the memory it was given
    | Diverges    // a loop whose cursor no longer moves
  {
    predicate IsFailure() {
      !Done?
    }

    function PropagateFailure<U>(): Outcome<U>
      requires IsFailure()
    {
      if Undefined? then Undefined else Diverges
    }

    function Extract(): T
      requires Done?
    {
      value
    }
  }
}
