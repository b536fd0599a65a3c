/** Types shared by the editor model. */
module Common {

  /** One byte of the UTF-8 encoding of a Rust `String`. */
  newtype byte = b: int | 0 <= b < 256

  /** The byte of the line break character '\n'. */
  const NEWLINE: byte := 10

  datatype Option<T> = None | Some(value: T)

  /** The `Result<()>` of an operation that can fail only on file I/O. */
  datatype Outcome = Ok | IoError
}
