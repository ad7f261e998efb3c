/** The ways a Java call made by or on the region provider can end: it either
    returns a value or throws one of the exceptions the provider lets escape.
 */
module Outcomes {

  /** The exceptions that reach callers of the provider. */
  datatype Exception =
    | IOException(reason: string)            // from the region factory or from IRegion.close
    | IllegalArgumentException(message: string)
    | NullPointerException                   // touching the handle table after it was dropped

  /** The result of one Java call: a returned value or a thrown exception. */
  datatype Outcome<+T> = Return(value: T) | Throw(ex: Exception) {

    /** Keeps a thrown exception, and wraps a returned value with `f`. */
    function MapValue<U>(f: T -> U): (r: Outcome<U>)
    {
      match this
      case Return(v) => Return(f(v))
      case Throw(e) => Throw(e)
    }
  }

  /** java.util.Optional. */
  datatype Option<+T> = None | Some(value: T)
}
