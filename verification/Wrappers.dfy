/** The two failure-carrying datatypes the other modules share. */
module Wrappers {

  datatype Option<+T> = None | Some(value: T)

  /** Every way the C++ code leaves a function abnormally, a thrown `ss::Error`
      or an exception raised on the sink, is the `Err` of a `Result`. */
  datatype Result<+T, +E> = Ok(value: T) | Err(error: E)
}
