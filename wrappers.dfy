/** Option and Result values, and the Python exceptions the modelled code can raise. */
module Wrappers {

  datatype Option<+T> = None | Some(value: T)

  /** The Python exception classes that the modelled functions raise. */
  datatype Error =
    | IndexError        // `[...][0]` on an empty list
    | ValueError        // `int()` of a non-number, `min([])`, `random.sample` of too many, `list.remove` of a missing item
    | KeyError          // a dictionary lookup of a missing key
    | ZeroDivisionError // a division by a zero length or count
    | TypeError         // a call with the wrong number of arguments, or a list used as a dict key

  /** The outcome of a computation that either returns a value or raises. */
  datatype Result<+T> = Ok(value: T) | Err(error: Error)
}
