/** The error and optional-value types shared by every module: the parts of
    `std::io::Error` and `Option` that the interface enumeration relies on. */
module Io {

  /** The `io::ErrorKind`s the enumeration produces itself. */
  datatype ErrorKind = NotFound | InvalidData | AddrNotAvailable

  /** An `io::Error`: either one built from a kind, or the operating
      system's error code as `io::Error::last_os_error` reports it. */
  datatype Error = Kind(kind: ErrorKind) | Os(code: int)

  datatype Option<+T> = None | Some(value: T)

  datatype Result<+T> = Ok(value: T) | Err(error: Error)
}
