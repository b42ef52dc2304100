/** Absent values, the exceptions the tree's operations raise, and the two
    shapes of result that carry them: a value or an exception, and success or
    an exception. */
module Results {

  /** A value that may be missing; `None` also stands for the tree's root. */
  datatype Option<T> = None | Some(value: T)

  /** Python's built-in exceptions that the tree and the sorter can raise. */
  datatype Error = KeyError | ValueError | IndexError | AttributeError

  datatype Result<T> = Ok(value: T) | Err(error: Error)

  datatype Outcome = Pass | Fail(error: Error)
}
