/** The few Rust standard-library types the model needs, as Dafny values. */
module RustTypes {

  /** One byte of a Rust `str` or file; a `str` is a sequence of these. */
  newtype byte = b: int | 0 <= b < 0x100

  /** Rust's `Option<T>`. */
  datatype Option<+T> = None | Some(value: T)

  /** Rust's `Result<T, E>`. */
  datatype Result<+T, +E> = Ok(value: T) | Err(error: E)

  /** How a call that cannot fail in the type system ends: it returns a value, or it panics
      (in this model, only through an arithmetic underflow the source does not guard against). */
  datatype Exit<+T> = Returns(value: T) | Panics
}
