/** Option and Result, and the error kinds the server functions throw. */
module Wrappers {

  datatype Option<+T> = None | Some(value: T) {
    function GetOr(default: T): T {
      match this
      case Some(v) => v
      case None => default
    }
  }

  /** The conditions under which a server function throws instead of returning. */
  datatype Error =
    | NotAuthenticated          // "Not authenticated": no session, or no user behind it
    | NoFamily                  // "No family associated with this account"
    | JobNotFound               // "Job not found"
    | JobNoLongerAvailable      // "Job is no longer available"
    | ClaimedBySomeoneElse      // "Job was claimed by someone else"
    | KidNotFound               // "Kid not found"
    | NoAllowanceConfigured     // "No weekly allowance configured for this kid"
    | InvalidInput              // rejected by the function's input validator
    | EmptyUpdate               // the query builder refuses an UPDATE with no values to set
    | NoSuchRow                 // an UPDATE matched no row and its missing result was then read

  datatype Result<+T> = Ok(value: T) | Err(error: Error)
}
