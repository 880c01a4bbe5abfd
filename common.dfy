/** Types shared by the two codecs. Text is a Python `str`, a sequence of code
    points. The encoders read each input character as a byte (`ord` of it
    indexes a table of 64 or 16 symbols), so their input is text whose code
    points all fit in a byte; the decoders produce such text (`chr` of values
    0..255). */
module Common {

  /** A character whose code point fits in a byte. */
  type ByteChar = c: char | c as int < 256

  /** The two ways a decode call is rejected: an input length that is not a
      whole number of groups, and a character that has no value. The call then
      returns nothing at all. */
  datatype Error = InvalidLength | InvalidCharacter

  datatype Result<T> = Ok(value: T) | Err(error: Error)

  /** Bytes already emitted, followed by what decoding the rest gives. */
  function PrependOk(prefix: seq<ByteChar>, rest: Result<seq<ByteChar>>): Result<seq<ByteChar>>
  {
    match rest
    case Ok(s) => Ok(prefix + s)
    case Err(e) => Err(e)
  }

  /** Python's `chr` on a value that fits in a byte. */
  function Chr(v: int): (c: ByteChar)
    requires 0 <= v < 256
    ensures c as int == v
  {
    v as char
  }
}
