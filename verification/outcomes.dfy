/** The Python exceptions the game scripts can raise, and the wrappers that carry a value
    or its absence. */
module Outcomes {

  /** The exception classes raised by the modelled statements. */
  datatype Fault =
    | ValueError      // `int(...)` of a field that is not a decimal number
    | IndexError      // a missing message field, or a coordinate outside the 3x3 board
    | AttributeError  // an attribute read on a `Grid` that never assigned it

  /** Either a value or the exception raised in its place. */
  datatype Result<+T> = Ok(value: T) | Err(fault: Fault)

  datatype Option<+T> = None | Some(value: T)
}
