/** Failure-compatible wrappers shared by the retrieval and ingestion models.

    Python exceptions that the source lets propagate become `Failure` values,
    so every error path of the program is an ordinary result of the model. */
module Results {

  datatype Option<+T> = None | Some(value: T)

  /** The exception kinds the modelled code can raise. */
  datatype Error =
    | TypeError          // iterating a value that is not iterable (e.g. None)
    | KeyError(key: string)
    | ValueError         // a conversion the code does not catch
    | ServiceError       // an exception raised by an external service call

  datatype Result<+T> = Success(value: T) | Failure(error: Error) {

    predicate IsFailure() {
      Failure?
    }

    function PropagateFailure<U>(): Result<U>
      requires Failure?
    {
      Failure(error)
    }

    function Extract(): T
      requires Success?
    {
      value
    }
  }
}
