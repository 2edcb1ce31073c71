/** Small result types shared by the rest of the model. */
module Wrappers {

  /** An optional value: Python's `None` versus a present value. */
  datatype Option<+T> = None | Some(value: T)

  /** The outcome of a Python call: it either returns a value or raises an
      exception. Which exception is raised is never inspected by the code
      being modelled, so it is not recorded. */
  datatype Outcome<+T> = Returned(value: T) | Raised
}
