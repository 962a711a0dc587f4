/** Failure-carrying datatypes shared by the whole model.

    The server reports every failure by raising a Python exception; the
    model returns an `Err` carrying one of the `Failure` tags below instead,
    and the dispatcher turns any of them into a general-error response. */
module Wrappers {

  /** Python's `None` / a present value. */
  datatype Option<+T> = None | Some(value: T) {

    /** The present value, or `default` when absent. */
    function GetOr(default: T): T {
      match this
      case Some(v) => v
      case None => default
    }
  }

  /** Why an operation raised. */
  datatype Failure =
    | Truncated           // a fixed-width field or a declared length is not fully present
    | MissingPayload      // a handler needed a payload but the request carried none
    | OutOfRange          // an integer does not fit the struct format it is packed with
    | DuplicateName       // registration of a name that is already registered
    | UnknownClient       // a looked-up client id is not registered
    | UnknownCode(code: nat)  // a request code no handler is registered for
    | NotIterable         // a loop over the `None` returned for an absent mailbox

  /** The outcome of an operation that may raise. */
  datatype Result<+T> = Ok(value: T) | Err(error: Failure)
}
