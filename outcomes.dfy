/** Rust's `Option` and `Result`, and the transport failure of the HTTP client. */
module Outcomes {

  datatype Option<T> = None | Some(value: T)
  {
    /** `Option::unwrap_or` */
    function UnwrapOr(default: T): T
    {
      match this
      case Some(v) => v
      case None => default
    }
  }

  datatype Result<T, E> = Ok(value: T) | Err(error: E)

  /**
   * A failure of the HTTP client (`reqwest::Error`): the request could not be
   * built or sent, or its body could not be decoded.  Its cause is opaque here.
   */
  datatype TransportFailure = TransportFailure(cause: string)
}
