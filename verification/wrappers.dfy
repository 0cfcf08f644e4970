/** Failure-compatible wrapper shared by the model's modules. */
module Wrappers {

  /** A value that may be missing; `None` stands for a computation that
      aborted (a Go run-time panic) before producing its value. */
  datatype Option<+T> = None | Some(value: T)
}
