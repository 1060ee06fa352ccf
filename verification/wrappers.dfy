/** Failure-carrying result types shared by the lexicon modules. A panic of
    the handlers (`todo!()`, an out-of-range slice, a missing split part) is
    modelled as an `Err` value instead of an abort. */
module Wrappers {

  /** Rust's `Option`: an absent or present value. */
  datatype Option<+T> = None | Some(value: T)

  /** A computation that either produced `value` or stopped with `error`. */
  datatype Result<+T, +E> = Ok(value: T) | Err(error: E)
}
