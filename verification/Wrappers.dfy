/** Option and Result, for the error paths of the model: a hex string that does
    not decode, and the panics of the Rust code (`expect`, arithmetic overflow). */
module Wrappers {

  datatype Option<+T> = None | Some(value: T)

  datatype Result<+R, +E> = Ok(value: R) | Err(error: E)
}
