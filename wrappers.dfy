/** Result values standing for the Python exceptions the modelled code can raise. */
module Wrappers {

  /** The exception a Python expression would raise. */
  datatype Fault =
    | KeyError           // lookup of a missing dictionary key or set element
    | ValueError         // int() of an empty or malformed digit string
    | IndexError         // string or list index out of range
    | UnboundLocalError  // a local variable read before any assignment

  datatype Result<T> = Ok(value: T) | Err(fault: Fault)

  datatype Option<T> = None | Some(value: T)
}
