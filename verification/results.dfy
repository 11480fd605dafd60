/** Optional values, results and the error taxonomy shared by every layer.
    The source signals failures by raising HTTP exceptions deep inside the
    services; here they are ordinary values returned up to the routes. */
module Results {

  /** A value that may be absent; `GetOr` supplies a default. */
  datatype Option<T> = None | Some(value: T) {
    function GetOr(default: T): T {
      if Some? then value else default
    }
  }

  /** The failures the inventory and recipe logic can report. */
  datatype Error =
    | Forbidden        // HTTP 403: caller is not the owner named in the path
    | NotFound         // HTTP 404: no row with that id for that owner
    | CreationFailed   // HTTP 400: the recipe insert returned no row
    | AddFailed        // HTTP 400: the legacy add route saw a response without data

  datatype Result<T> = Success(value: T) | Failure(error: Error)
}
