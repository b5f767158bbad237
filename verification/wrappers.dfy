/** Failure-carrying datatypes shared by the model. */
module Wrappers {

  /** `None` stands for JavaScript's `undefined`, or for NaN where a number is expected. */
  datatype Option<+T> = None | Some(value: T)

  /** The only exception the modelled code can raise on its own. */
  datatype JsError = TypeError

  /** The outcome of a computation that may throw. */
  datatype Result<+T> = Ok(value: T) | Err(error: JsError)
}
