/** Small shared datatypes: an optional value (a nullable reference in the
    original code) and the outcome kinds that the page handlers report. */
module Wrappers {

  datatype Option<+T> = None | Some(value: T) {

    /** The value, or `default` when there is none (C#'s `x ?? default`). */
    function GetOr(default: T): T {
      match this
      case Some(v) => v
      case None => default
    }
  }
}

module Outcomes {

  /** What a handler reports: success, or the kind of error it surfaced
      (a ModelState error, a status message, or an error from the store). */
  datatype Outcome =
    | Succeeded
    | InvalidInput       // ModelState.IsValid was false: nothing was looked up
    | UserNotFound
    | RoleNotFound
    | DuplicateClaim
    | DuplicateRole
    | AlreadyAssigned
    | StoreFailure       // the store reported `Succeeded == false`
    | RestoredOriginal   // "Failed to update claim. Restored original claim."
    | Faulted            // an exception was caught and reported as "Error: ..."
}
