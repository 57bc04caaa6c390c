/** Values that may be absent and computations that may fail, as the pipeline reports them. */
module Outcomes {

  datatype Option<T> = None | Some(value: T)

  /** The failures the pipeline raises; each one stops processing. */
  datatype Error =
    | EmptyInput            // the uploaded table has no rows
    | MissingBranchDigits   // some Applied channel string holds no digit, so no Branch ID
    | BadDuration           // a Time Difference text is not `hh:mm:ss`

  datatype Result<T> = Ok(value: T) | Err(error: Error)
}
