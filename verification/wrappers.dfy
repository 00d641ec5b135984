/** Failure-carrying values used where the program returns None or raises. */
module Wrappers {

  datatype Option<+T> = None | Some(value: T) {

    /** The value of a Some, or `default` for None. */
    function GetOr(default: T): T {
      match this
      case Some(v) => v
      case None => default
    }
  }

  /** The first of two optional values that is present (Python's `a if a is not None else b`). */
  function FirstPresent<T>(a: Option<T>, b: Option<T>): (r: Option<T>)
    ensures a.Some? ==> r == a
    ensures a.None? ==> r == b
  {
    if a.Some? then a else b
  }

  /** The exceptions of the program that the model keeps. */
  datatype Error =
    | IndexError      // a list index out of range
    | ValueError      // an unpacking of the wrong length, or a string int() refuses
    | SystemExit      // sys.exit with a message
    | FileNotFoundError  // shutil.move of a file that is not there

  datatype Result<+T> = Success(value: T) | Failure(error: Error)
}
