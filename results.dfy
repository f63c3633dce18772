/** Optional values and the outcomes of controller actions. */
module Results {

  /** A value that may be absent (a C# `null` reference). */
  datatype Option<+T> = None | Some(value: T) {
    function GetOr(default: T): T {
      match this
      case Some(v) => v
      case None => default
    }
  }

  /** Why a controller action refused to act or to show something.
      The web application turns each of these into a redirect or a view;
      here they are plain values. */
  datatype Failure =
    | NotFound                 // no claim (or no document) with that identifier
    | Forbidden                // the caller's role may not do this
    | InvalidModel             // the claim's fields failed model validation
    | Invalid(message: string) // another input was refused, with this message

  datatype Result<+T> = Ok(value: T) | Err(failure: Failure)
}
