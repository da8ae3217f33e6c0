/** Optional values and failure-carrying results shared by the other modules.
    Python's `None` is `Option.None`; a raised exception that the model keeps
    is a `Result.Failure`. */
module Common {

  datatype Option<+T> = None | Some(value: T)

  datatype Result<+T, +E> = Success(value: T) | Failure(error: E)
}
