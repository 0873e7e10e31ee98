/** Optional values and the success-or-error outcome of an export. */
module Results {

  datatype Option<+T> = None | Some(value: T)

  /** Either the computed value or the message of the error that aborted the
      computation. */
  datatype Result<+T> = Success(value: T) | Failure(error: string)
}
