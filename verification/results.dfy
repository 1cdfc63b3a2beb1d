/**
 * The failure vocabulary shared by the three application services.
 */
module Results {

  /** The kinds of failure a service call ends in.
      - NotFound: a referenced product, category or inventory is absent (NotFoundException).
      - Validation: the input breaks a domain rule (ValidationException).
      - Conflict: the store refused to save because a uniqueness index or a foreign key
        would be violated (the exception SaveChanges raises). */
  datatype Error = NotFound | Validation | Conflict

  /** A value that may be absent, as a nullable reference or a nullable `decimal?`. */
  datatype Option<+T> = None | Some(value: T)

  /** The outcome of a read: a value or the failure raised instead. */
  datatype Result<+T> = Ok(value: T) | Err(error: Error)
}
