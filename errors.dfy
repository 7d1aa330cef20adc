/** The exceptions the bucket's core can raise, and the wrappers that carry them. */
module Errors {

  datatype Option<+T> = None | Some(value: T)

  /** The Python exceptions that the core raises. */
  datatype Error =
    | ValueError         // `fn, ext = ....split('.')` met a number of parts other than two
    | FileNotFoundError  // `open`, `os.path.getsize` or `os.remove` on a path that does not exist
    | ValidationError    // pydantic refused to build a model from the arguments given

  /** A value, or the exception raised instead of returning it. */
  datatype Result<+T> = Ok(value: T) | Err(error: Error)

  /** The completion of a call that returns nothing, or the exception it raised. */
  datatype Outcome = Done | Failed(error: Error)
}
