/** Value-level stand-ins for what a Python call can do. */
module Outcomes {

  /** Python's `None` or a value. */
  datatype Option<+T> = None | Some(value: T)

  /** The outcome of a Python call: it returned `value`, or it raised an
      exception whose `str()` is `msg`. */
  datatype Raise<+T> = Returned(value: T) | Raised(msg: string)
}
