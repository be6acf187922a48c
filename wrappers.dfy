/** The success/failure outcome that the codec's fallible conversions return,
    in place of Rust's `Result`. */
module Wrappers {

  datatype Result<+R, +E> = Success(value: R) | Failure(error: E)
}
