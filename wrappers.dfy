/** Option and the outcome of a Python call that may raise. */
module Wrappers {

  datatype Option<+T> = None | Some(value: T)

  /** The Python exceptions the proxy's transformers can raise. */
  datatype Exception =
    | ValueError  // float() of an unreadable number; Element.remove of a node that is not a child
    | TypeError   // `in` applied to a missing (None) element text

  /** The value a Python call returns, or the exception it raises. */
  datatype Result<+T> = Ok(value: T) | Raised(error: Exception)
}
