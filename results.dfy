/**
 * The two sum types the source uses everywhere: Rust's `Option<T>` and
 * `Result<T, E>`.  `Result` is failure-compatible, so `:-` plays the part of
 * Rust's `try!`.
 */
module Results {

  datatype Option<T> = None | Some(value: T)

  datatype Result<T, E> = Ok(value: T) | Err(error: E) {

    predicate IsFailure() {
      Err?
    }

    function PropagateFailure<U>(): Result<U, E>
      requires Err?
    {
      Err(error)
    }

    function Extract(): T
      requires Ok?
    {
      value
    }
  }
}
