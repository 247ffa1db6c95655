/** Option, Result and Outcome values used for the plugin's "no match" and exception paths. */
module Results {

  datatype Option<+T> = None | Some(value: T)

  /** A computation that either yields a value or raises one of the plugin's exceptions. */
  datatype Result<+T, +E> = Success(value: T) | Failure(error: E)

  /** The result of a procedure that returns nothing but may raise. */
  datatype Outcome<+E> = Pass | Fail(error: E)
}
