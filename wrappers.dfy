/** Small failure-carrying datatypes shared by the whole model. */
module Wrappers {

  /** Go's "value or nil". */
  datatype Option<+T> = None | Some(value: T)

  /** The outcome of a Go call that may panic instead of returning. */
  datatype Outcome<+T> = Return(value: T) | Panic(reason: string)
}
