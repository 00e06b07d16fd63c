/** Value types shared by the whole codec: the two byte-order profiles, the
    integer field types of a profile table, the failures the codec raises,
    and the result wrappers that carry them. */
module Types {

  /** A byte: an integer in 0..255. */
  type byte = b: int | 0 <= b < 256

  /** The conventional Some/None wrapper. */
  datatype Option<+T> = None | Some(value: T)

  /** A value or the failure that replaced it (the source raises an exception). */
  datatype Result<+T, +E> = Ok(value: T) | Err(error: E)

  /** The result of an operation that returns nothing but may fail. */
  datatype Outcome<+E> = Pass | Fail(error: E)

  /** The two byte-order profiles, `BE` and `LE`. */
  datatype Endian = BigEndian | LittleEndian

  /** The integer field types of a profile table, named as in the table:
      `byte`/`ubyte` (1 byte), `short`/`ushort` (2), `int`/`uint` (4) and
      `long`/`ulong` (8); the first of each pair is signed. */
  datatype IntKind = Byte | UByte | Short | UShort | Int | UInt | Long | ULong

  /** Number of bytes a field of kind `k` occupies. */
  function Width(k: IntKind): nat
  {
    match k
    case Byte | UByte => 1
    case Short | UShort => 2
    case Int | UInt => 4
    case Long | ULong => 8
  }

  /** True for the two's complement kinds. */
  predicate IsSigned(k: IntKind)
  {
    k == Byte || k == Short || k == Int || k == Long
  }

  /** Everything the modelled core can fail with. */
  datatype CodecError =
    /** `struct.error`: unpack was handed a buffer of the wrong size (end of stream). */
    | BufferSizeMismatch(expected: nat, actual: nat)
    /** `struct.error`: pack was handed a value outside the field's range. */
    | OutOfRange(kind: IntKind, value: int)
    /** `struct.error`: a fixed-length field format with a negative length. */
    | NegativeFieldLength(length: int)
    /** `binascii.Error`: a hexadecimal string whose encoded length is odd. */
    | OddLengthHex
    /** `binascii.Error`: a hexadecimal string holding a character that is not a hex digit. */
    | NonHexDigit
    /** `ValueError`: an absolute seek to a negative position. */
    | NegativeSeek(position: int)
    /** The text decoder rejected the bytes (the `strict` error policy). */
    | TextDecodeFailed
    /** The text encoder could not represent the text. */
    | TextEncodeFailed
}
