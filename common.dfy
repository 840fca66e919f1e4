/** Small shared vocabulary of the model: optional values, results,
    bytes and text. */
module Common {

  datatype Option<+T> = None | Some(value: T)

  datatype Result<+T, +E> = Success(value: T) | Failure(error: E)

  /** An octet as it travels on a socket or through a pipe. */
  type byte = b: int | 0 <= b < 256

  /** std::string: a sequence of characters, no encoding. */
  type String = seq<char>

  function Min(a: int, b: int): int
  {
    if a < b then a else b
  }
}
