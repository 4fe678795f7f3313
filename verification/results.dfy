/** Optional values and the value-or-error outcome of a render call. */
module Results {

  /** An optional value: a regex group that did or did not take part in a match. */
  datatype Option<+T> = None | Some(value: T)

  /** Either the rendered value or the error that aborted the whole call. */
  datatype Result<+T, +E> = Ok(value: T) | Err(error: E)
}
