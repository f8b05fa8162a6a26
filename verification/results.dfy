/** Optional values and success-or-error results, usable with `:-`. */
module Results {

  /** A value that may be absent; stands in for a C# null reference. */
  datatype Option<+T> = None | Some(value: T)

  /** The outcome of an operation that may throw in the modelled code. */
  datatype Result<+T, +E> = Ok(value: T) | Err(error: E) {

    predicate IsFailure() {
      Err?
    }

    function PropagateFailure<U>(): Result<U, E>
      requires Err?
    {
      Err(error)
    }

    function Extract(): T
      requires Ok?
    {
      value
    }
  }
}
