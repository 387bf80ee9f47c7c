/** Failure-carrying result types shared by the whole model, and the error
    values the Go code returns through its `error` results. */
module Wrappers {

  datatype Option<+T> = None | Some(value: T)

  /** The errors the modelled code can return. */
  datatype Error =
    | EmptyDate            // "empty date string"
    | InvalidDate          // time.Parse rejected the normalised date
    | NoBookmarks          // "no bookmarks provided"
    | MissingEnv           // "missing required environment variables"
    | NotFound             // the remote store has no such page
    | RequestFailed        // a remote call failed (network, rate limit, ...)
    | InvalidCursor        // the remote store does not recognise a cursor

  /** A value or an error, as Go's `(T, error)` pairs. */
  datatype Result<+T> = Ok(value: T) | Err(error: Error)

  /** Success or an error, as a Go function returning only `error`. */
  datatype Outcome = Pass | Fail(error: Error)
}
