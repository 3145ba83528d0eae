/** Shared vocabulary of the codec model: bytes, the integer widths the
    combinators work with, the error kinds they raise, and the shapes of
    encoding and decoding results.

    The serde engine is replaced by a packed byte stream: tuples, sequences
    and byte strings carry no framing, so a value's encoding is just its
    bytes, and decoding reads from the front of a byte sequence and hands
    back what it did not consume. */
module Types {

  /** A byte of the stream (Rust `u8`). */
  type u8 = x: int | 0 <= x < 256

  type Bytes = seq<u8>

  const U32_MAX: int := 0xFFFF_FFFF
  const I32_MIN: int := -0x8000_0000
  const I32_MAX: int := 0x7FFF_FFFF
  /** `usize` is fixed at 64 bits in this model. */
  const USIZE_MAX: int := 0xFFFF_FFFF_FFFF_FFFF

  /** The errors the core raises, by the serde / cast constructor that
      raises them; message formatting is not modelled. */
  datatype Error =
      /** `de::Error::invalid_length(obtained, ..)`: fewer elements than
          required; `obtained` is how many there were. */
    | InvalidLength(obtained: nat)
      /** `de::Error::invalid_value(Unsigned(received), ..)`; the message
          also names the expected byte. */
    | InvalidValue(received: u8, expected: u8)
      /** `cast::Error::Overflow`: the value does not fit the narrower type. */
    | Overflow
      /** `cast::Error::Underflow`: a negative value for an unsigned type. */
    | Underflow
      /** `ser::Error::custom` raised by `TupleN` when its configured count
          differs from the container's length. */
    | CountMismatch(configured: nat, actual: nat)

  datatype Option<+T> = None | Some(value: T)

  datatype Result<+T> = Ok(value: T) | Err(error: Error)

  /** The values codecs produce and consume: `()`, an integer of any of the
      modelled widths, or a homogeneous container (array or `Vec`). */
  datatype Value = Unit | Int(i: int) | List(items: seq<Value>)

  /** A successful decode: the value and the input left after it. */
  datatype Decoded = Decoded(value: Value, rest: Bytes)
}
