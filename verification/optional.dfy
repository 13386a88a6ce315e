/** Failure-compatible wrappers used throughout the model: `Option` stands for a
    JavaScript value that may be `null`/`undefined`, `Result` for an operation
    that may throw. */
module Optional {

  datatype Option<+T> = None | Some(value: T) {

    /** The value, or `default` when absent (JavaScript's `??`). */
    function GetOr(default: T): T {
      match this
      case Some(v) => v
      case None => default
    }
  }

  datatype Result<+T, +E> = Ok(value: T) | Err(error: E)
}
