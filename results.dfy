/** Error values and failure-carrying wrappers shared by the model. */
module Results {

  /** The exceptions the model can raise. */
  datatype Error =
    | IndexOutOfBounds   // energy(x, y) called outside the current width and height
    | PixelOutOfRange    // a picture read outside the picture's own bounds
    | IllegalArgument    // a seam of the wrong length handed to a removal

  datatype Option<T> = None | Some(value: T)

  /** A value, or the exception that was thrown instead. */
  datatype Result<T> = Ok(value: T) | Err(error: Error)

  /** Completion of an operation that returns nothing, or the exception it threw. */
  datatype Outcome = Pass | Fail(error: Error)
}
