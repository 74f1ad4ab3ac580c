/** Failure-compatible wrappers shared by the model. */
module Wrappers {

  /** An optional value: stands for a nullable pointer of the source. */
  datatype Option<+T> = None | Some(value: T)

  /** The result of an operation that either completes or hits a fatal
      `g_error`, which in the source terminates the process. */
  datatype Outcome = Completed | Fatal(reason: string)
}
