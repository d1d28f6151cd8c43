/** Value types shared by every module: Rust's `Option` and `Result`, a
    computation that may panic, and the fixed-width integers the service uses. */
module Base {

  datatype Option<+T> = None | Some(value: T)

  datatype Result<+T, +E> = Ok(value: T) | Err(error: E)

  /** A computation that either returns normally or panics, as `unwrap()` and
      `expect(..)` do on a failed value. */
  datatype Panicking<+T> = Returns(value: T) | Panics(message: string)

  const INT64_MIN: int := -0x8000_0000_0000_0000
  const INT64_MAX: int := 0x7fff_ffff_ffff_ffff

  predicate IsInt64(x: int) {
    INT64_MIN <= x <= INT64_MAX
  }

  /** Rust's `i64`; user ids, timestamps and the token lifetime have this type. */
  type int64 = x: int | IsInt64(x)

  /** Rust's `u8`. */
  type uint8 = x: int | 0 <= x < 256
}
