/** The part of Rust's `std::io::Error` that the modelled code constructs. */
module Io {

  /** Only `ErrorKind::InvalidData` is ever produced by the modelled code. */
  datatype ErrorKind = InvalidData

  /** `Error::new(kind, message)`. */
  datatype Error = Error(kind: ErrorKind, message: string)
}
