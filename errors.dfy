/** The driver's error values (src/errors.rs and the `PLightError` variants the strips use). */
module Errors {

  /** The kind of an I/O error, as far as the driver distinguishes them. */
  datatype IoKind = TimedOut | Other

  datatype Error =
    | WrongWallpaperPath(output: string)
    | PostfixReading(kind: IoKind)
    | WrongLength(given: nat, actual: nat)
    | WrongPostfix(got: seq<int>)
      /** An `io::Error` from a port write or flush, propagated unchanged by `?`. */
    | Io(kind: IoKind)
      /** A failure to run the wallpaper query command or to decode its output as UTF-8. */
    | CommandFailed
      /** `u8::from_str_radix` rejected its input. */
    | ParseIntError
      /** Opening or decoding an image failed. */
    | ImageError
}
