/** The exceptions the script's pipeline can raise, and a result type that carries them.
    File-system and parse errors of the loaders are outside the model. */
module Results {

  datatype Error =
    | KeyError(key: string)   // a dict lookup with a missing key
    | ValueError              // `list.index` of an absent value, or `min` of an empty list
    | StopIteration           // `next` on an exhausted iterator
    | IndexError              // `row[0]` on an empty row

  /** Either the value a step computes or the exception it raises; `:-` propagates the exception. */
  datatype Result<+T> = Success(value: T) | Failure(error: Error) {

    predicate IsFailure() {
      Failure?
    }

    function PropagateFailure<U>(): Result<U>
      requires Failure?
    {
      Failure(error)
    }

    function Extract(): T
      requires Success?
    {
      value
    }
  }
}
