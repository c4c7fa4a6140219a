/** Option and Result, the model's counterparts of Rust's `Option<T>` and
    `Result<T, E>`. A `?` in the source is spelt out as a `match` whose
    failure case returns the error. */
module Wrappers {

  datatype Option<+T> = None | Some(value: T)

  datatype Result<+R, +E> = Success(value: R) | Failure(error: E) {
    /** Rust's `Result::map_err`. */
    function MapFailure<NewE>(wrap: E -> NewE): Result<R, NewE>
    {
      match this
      case Success(v) => Success(v)
      case Failure(e) => Failure(wrap(e))
    }
  }
}
