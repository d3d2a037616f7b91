/** Failure-carrying result types shared by every stage of the pipeline. */
module Wrappers {

  /** An optional value; the model of Rust's `Option<T>`. */
  datatype Option<+T> = None | Some(value: T) {
    function GetOr(default: T): T {
      match this
      case Some(v) => v
      case None => default
    }
  }

  /** A value or an error; the model of Rust's `Result<T, E>`. A Rust `panic!`
      is modelled as an `Err` whose error names the fault. */
  datatype Result<+T, +E> = Ok(value: T) | Err(error: E)
}
