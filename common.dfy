/** Small value types shared by the other modules. */
module Common {

  /** An optional value, as Rust's `Option<T>`. */
  datatype Option<+T> = None | Some(value: T)

  /** An I/O failure as `std::io::Error` reports it; only its text is kept. */
  datatype IoError = IoError(message: string)
}
