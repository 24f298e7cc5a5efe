/** Option and Result: the model's replacement for the decoder's NULL / 0
    sentinels and for its fatal exits. */
module Wrappers {

  datatype Option<+T> = None | Some(value: T)

  datatype Result<+T, +E> = Ok(value: T) | Err(error: E)
}
