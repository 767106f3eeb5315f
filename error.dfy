/** The failure taxonomy of src/error.rs and the result type `new` returns. */
module Error {
  /**
   * `ErrorKind` of src/error.rs. The wrapped `io::Error` of `IO` is an
   * opaque platform value and carries no payload here.
   */
  datatype ErrorKind = NoPageSize | InvalidSize(size: nat) | IO

  /** `Result<T, Error>`: a value or the kind of failure that prevented it. */
  datatype Result<+T> = Ok(value: T) | Err(error: ErrorKind)
}
