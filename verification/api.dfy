/**
 * What every request handler hands back: the store after the request and the
 * reply. A handler that rolls back returns the store it was given; a handler
 * that commits and then fails while building its reply returns the committed
 * store together with an error.
 */
module Api {
  import opened Wrappers
  import opened Models

  /** Why a request failed, as told by the handler's error message. */
  datatype Reason =
    | DuplicateName      // a row with the requested name already exists
    | UnknownOtdel       // the referenced department id does not exist
    | UnknownPost        // the referenced post id does not exist
    | UnknownRole        // the referenced role id does not exist
    | UnknownEmployee    // the referenced employee id does not exist
    | UnknownActionType  // the referenced action type id does not exist
    | MalformedDate      // the date string is not a `%Y-%m-%d` calendar date
    | NullColumn         // a NOT NULL column was set to null, rejected at commit
    | DanglingReference  // a joined row an employee points at is gone
    | DuplicateKey       // an insert collides with an existing primary key
    | OutOfRange         // a value to be written does not fit a 64-bit INTEGER column

  /**
   * The HTTP error a request ends with. A `BadRequest` raised inside a handler's
   * `try ... except Exception` block is caught and re-raised as a `ServerError`
   * carrying the same reason.
   */
  datatype Failure = BadRequest(reason: Reason) | NotFound | ServerError(reason: Reason)

  /** The HTTP status code of a failure. */
  function Status(f: Failure): (code: int)
    ensures code in {400, 404, 500}
    ensures code == 404 <==> f.NotFound?
  {
    match f
    case BadRequest(_) => 400
    case NotFound => 404
    case ServerError(_) => 500
  }

  /** The store after a request, with the reply the client receives. */
  datatype Outcome<+T> = Outcome(store: Store, reply: Result<T, Failure>)
}
