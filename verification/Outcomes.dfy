/** Result types shared by the other modules. */
module Outcomes {

  datatype Option<+T> = None | Some(value: T)

  /** The outcome of reading from a byte string: a value and the number of bytes consumed. */
  datatype Parse<+T> = Fail | Done(val: T, n: nat)
}
