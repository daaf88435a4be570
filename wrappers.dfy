/** Rust's `Option` and `Result`, as far as the splitter uses them. */
module Wrappers {

  datatype Option<+T> = None | Some(value: T) {

    /** Rust's `unwrap_or`: the held value, or `default` when there is none. */
    function UnwrapOr(default: T): T {
      match this
      case Some(v) => v
      case None => default
    }
  }

  /** `Result<T, String>`: a value, or an error message. */
  datatype Result<+T> = Ok(value: T) | Err(error: string)
}
