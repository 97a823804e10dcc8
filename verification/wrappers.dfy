/** Option and Result, the two failure-carrying shapes the model uses for
    JavaScript's `undefined`/`false` returns and thrown errors. */
module Wrappers {

  datatype Option<+T> = None | Some(value: T)

  datatype Result<+T, +E> = Ok(value: T) | Err(error: E)
}
