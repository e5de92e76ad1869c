/** The two wrappers the model needs: an optional value, and the settled
    result of one call to the task store (success with the response body,
    or failure, which the component only logs). */
module Outcomes {

  datatype Option<+T> = None | Some(value: T)

  /** Every transport error and non-2xx status collapse into `Failure`:
      the component's `catch` blocks do not tell them apart. */
  datatype Outcome<+T> = Success(value: T) | Failure
}
