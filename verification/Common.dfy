/** The value wrappers the models share, and prefixes of at most a given length. */
module Common {

  datatype Option<+T> = None | Some(value: T)

  /** Why a database call fails: the database itself, a primary key already taken, or no such row. */
  datatype Error = DatabaseError | KeyConflict | RecordNotFound

  /** A Go `(value, error)` pair. */
  datatype Result<+T> = Ok(value: T) | Err(error: Error)

  function Take<T>(s: seq<T>, n: nat): seq<T> {
    if |s| <= n then s else s[..n]
  }
}
