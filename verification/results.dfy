/**
 Rust's `Result` and `std::io::Error`, as far as the connection code uses
 them, and the `Option` that the separator search returns.
 */
module Results {

  /** `Option<T>`: a value that may be absent. */
  datatype Option<+T> = None | Some(value: T)

  /** `Result<T, E>`: a value or the error that prevented it. */
  datatype Result<+T, +E> = Ok(value: T) | Err(error: E)

  /** The `std::io::ErrorKind` values the model distinguishes; every other kind is `Other`. */
  datatype ErrorKind = InvalidInput | Other

  /** `std::io::Error`: a kind and a human-readable message. */
  datatype IoError = IoError(kind: ErrorKind, message: string)
}
