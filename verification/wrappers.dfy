/** Option and Result, the two failure-carrying shapes the order monitor uses:
    an optional timestamp or configuration value, and the outcome of a call
    into the chain, the database or the market contract. */
module Wrappers {

  datatype Option<+T> = None | Some(value: T)

  datatype Result<+R, +E> = Ok(value: R) | Err(error: E)
}
