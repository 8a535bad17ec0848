/** The two failure-carrying wrappers the model uses. */
module Outcomes {

  /** Python's `None` versus a present value. */
  datatype Option<+T> = None | Some(value: T)

  /** What a step inside the per-file `try` block yields: a value, or an
      exception that the handler around it catches (the file is then skipped). */
  datatype Result<+T> = Ok(value: T) | Raised
}
