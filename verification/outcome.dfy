/** The one failure the network build can meet: a stop id looked up in the
    stop table that the table does not hold (a `KeyError` on the stop
    dictionary). It aborts the run and carries the id that was missing. */
module Outcome {

  datatype Result<+T> = Ok(value: T) | MissingStop(id: string) {

    predicate IsFailure() {
      MissingStop?
    }

    function PropagateFailure<U>(): Result<U>
      requires MissingStop?
    {
      MissingStop(id)
    }

    function Extract(): T
      requires Ok?
    {
      value
    }
  }
}
