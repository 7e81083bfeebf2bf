/** Failure-compatible wrappers used throughout the model: `Option` for the
    generator's `Option<T>` and `Result` for its `Result<T, E>`, both usable
    with `:-` so that the `?` operator reads the same way. */
module Results {

  datatype Option<+T> = None | Some(value: T)

  datatype Result<+T, +E> = Success(value: T) | Failure(error: E) {

    predicate IsFailure() {
      Failure?
    }

    function PropagateFailure<U>(): Result<U, E>
      requires Failure?
    {
      Failure(error)
    }

    function Extract(): T
      requires Success?
    {
      value
    }
  }
}
