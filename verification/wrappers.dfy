/** Failure-carrying datatypes shared by the model.

    `app.py` signals failure with Python exceptions; every exception
    raised while a verdict is computed is caught at the request boundary. Here a
    computation that may raise returns a `Result`, and `Exception` records which
    collaborator raised.
 */
module Wrappers {

  /** A value that may be absent, as a form field that was not submitted. */
  datatype Option<+T> = None | Some(value: T) {

    /** The encapsulated value, or `default` when there is none. */
    function GetOr(default: T): T {
      match this
      case Some(v) => v
      case None => default
    }
  }

  /** Which foreign call raised. `app.py` does not tell them apart (it catches
      `Exception`), but the model keeps the cause so contracts can name it. */
  datatype Exception =
    | SuffixLookupFailed   // the public-suffix extractor raised
    | UrlParseFailed       // the URL parser raised (for example on bad IPv6 brackets)
    | PortRejected         // reading the parsed port raised (not numeric, or out of range)
    | PredictFailed        // the trained classifier raised

  /** Either a returned value or the exception raised instead. */
  datatype Result<+T> = Ok(value: T) | Raised(error: Exception) {

    predicate IsFailure() {
      Raised?
    }

    function PropagateFailure<U>(): Result<U>
      requires Raised?
    {
      Raised(error)
    }

    function Extract(): T
      requires Ok?
    {
      value
    }
  }
}
