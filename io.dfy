/** Rust's fixed-width integers and the parts of `std::io` that the input
    decoders produce: an error (OS error code, bare kind, or kind with a
    message) and `io::Result`. */
module Io {

  newtype u8 = x: int | 0 <= x < 0x100
  newtype u16 = x: int | 0 <= x < 0x1_0000
  newtype i32 = x: int | -0x8000_0000 <= x < 0x8000_0000

  /** The `io::ErrorKind`s the decoders name. */
  datatype ErrorKind = InvalidData | Other

  /** `io::Error`: `last_os_error()` gives `Os` (what a failed read of
      stdin yields, carried by the reader's pulls), `ErrorKind::X.into()` gives
      `Simple`, `Error::new`/`Error::other` give `Custom`. */
  datatype IoError =
    | Os(code: i32)
    | Simple(kind: ErrorKind)
    | Custom(kind: ErrorKind, message: string)

  datatype Option<T> = None | Some(value: T)

  /** `io::Result<T>`. */
  datatype Result<T> = Ok(value: T) | Err(error: IoError)
}
