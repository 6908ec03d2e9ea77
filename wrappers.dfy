/** Option and Result types used throughout the model. A JavaScript exception becomes an
    `Err` carrying the kind of error the runtime would throw. */
module Wrappers {

  datatype Option<+T> = None | Some(value: T)

  /** The exceptions the modelled code can raise. */
  datatype JsError =
    | TypeError       // property read on `undefined`
    | RangeError      // `String.prototype.repeat` with a negative count
    | NotImplemented  // `traverse` asked for breadth-first order

  datatype Result<+T> = Ok(value: T) | Err(error: JsError)
}
