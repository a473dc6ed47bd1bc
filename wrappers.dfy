/** Small failure-compatible wrapper used by the sampling primitives. */
module Wrappers {

  /** `None` stands for a draw that did not produce a value. */
  datatype Option<+T> = None | Some(value: T)
}
