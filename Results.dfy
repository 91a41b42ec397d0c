/** Optional values, results, and the .NET exception kinds the reference types throw. */
module Results {

  /** A value that may be absent; `None` stands for a C# `null` reference. */
  datatype Option<+T> = None | Some(value: T)

  /** The exceptions thrown by the cell and table reference types. */
  datatype Exception =
    | ArgumentException
    | ArgumentOutOfRangeException(paramName: string)
    | ArgumentNullException(paramName: string)

  /** Either a value or the exception that a C# call would have thrown instead. */
  datatype Result<+T> = Success(value: T) | Failure(error: Exception) {

    predicate IsFailure() {
      Failure?
    }

    function PropagateFailure<U>(): Result<U>
      requires Failure?
    {
      Failure(error)
    }

    function Extract(): T
      requires Success?
    {
      value
    }
  }
}
