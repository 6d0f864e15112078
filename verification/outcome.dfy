/** Outcomes of a round trip to the hosted table store.

    The store answers every request either with data or with an error object.
    Two kinds of error matter to the services: the "no single row" answer
    (error code PGRST116) that `.single()` gives when zero rows or more than
    one row match, and a failed round trip (transport or server failure).
 */
module Outcome {

  /** A value that may be absent (a nullable column or optional argument). */
  datatype Option<+T> = None | Some(value: T) {
    function GetOr(default: T): T {
      match this
      case Some(v) => v
      case None => default
    }
  }

  /** Why a store request, or a service built on it, failed. */
  datatype Failure =
    | NoSingleRow(matched: nat)  // PGRST116: `.single()` saw `matched` rows, not exactly one
    | Unavailable                // the round trip itself failed
    | AlreadyExists              // only raised by the corrected watchlist insert

  /** What a request answered: its data, or the error the store reported. */
  datatype Result<+T> = Ok(value: T) | Err(error: Failure)

  /** Whether one round trip reaches the store and comes back.
      The network is not modelled; each service call takes one `Link` per
      request it issues. */
  datatype Link = Up | Down
}
