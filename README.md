# binary.py typed codec, modelled in Dafny

binary.py reads and writes fixed-width binary fields over a seekable byte
stream. The `_Binary` mixin provides `peek_*`, `read_*` and `write_*` for
booleans and 1-, 2-, 4- and 8-byte integers, signed and unsigned. It also
handles hexadecimal and text fields, fixed-length framing and zero fill. The
mixin sits on top of the stream's own `tell`, `seek`, `read` and `write`. Two
byte-order profiles, `BE` and `LE`, pick the `struct` format for each type.

This project models that codec over the in-memory `Buffer`, which is an
`io.BytesIO`:

- `types.dfy` (module `Types`): bytes, the two profiles, the integer field
  types and their widths, and the failures the codec raises.
- `profile.dfy` (module `Profile`): what `struct.pack` and `struct.unpack` do
  for each field type, as pure functions.
  - Unsigned values are base-256 digits, most significant first under `BE`
    and last under `LE`.
  - Signed values are two's complement.
  - `pack` refuses values outside the type's range.
  - `unpack` refuses any byte count other than the field's width.
- `profile_properties.dfy` (module `ProfileProperties`): proofs about the
  profiles.
  - Pack and unpack are inverse in both directions.
  - `BE` and `LE` differ exactly by byte order.
  - The one-byte types ignore the profile.
  - The sign follows the top bit.
  - The tested example values come out as expected.
- `cursor.dfy` (module `Cursor`): the `io.BytesIO` semantics of `read(n)`
  and `write(b)` as functions of the contents and the position, with lemmas
  about reading back and writing back.
- `hex.dfy` (module `Hex`): `binascii.hexlify` and `binascii.unhexlify`,
  proved inverse up to letter case. This includes the odd-length and non-hex
  failures.
- `framing.dfy` (module `Framing`):
  - the fixed-length `Ns` packing of `write_length`: zero-pad or truncate;
  - the `value * length` repetition of `fill`;
  - the cut at the first NUL applied to decoded text.
- `binary.dfy` (module `Binary`): class `Buffer`, holding the contents
  (`seq<byte>`), the cursor `pos` and the profile.
  - It has the four cursor operations and every codec method.
  - Each method is built from `Tell`/`Seek`/`Read`/`Write`, as in the source.
  - Each contract ties the result and the new state to the pure functions
    above.
- `scenarios.dfy` (module `Scenarios`): client methods that rely only on
  `Buffer`'s contracts.
  - A peek agrees with the next read.
  - A written integer reads back.
  - Hex read and then written back leaves the bytes unchanged.
  - It also repeats the test suite's concrete cases.

Behaviour of the code worth knowing:

- `write_length` with a payload longer than `length`: the code truncates it,
  because `struct.pack` with an `Ns` format does. The model truncates too
  (`Framing.FixedLength`). It does not reject the payload.
- `fill` repeats a `value` of any length, as `value * length` does. It is not
  limited to a single byte. A zero or negative `length` writes nothing.
- After a failed `read_T`, the cursor has moved past the bytes that were
  there, because `read` runs before `unpack`. `Buffer.ReadInt` states this.
- A negative fixed length makes an invalid `struct` format and fails with
  `NegativeFieldLength`. A negative seek fails with `NegativeSeek`.
- `unhexlify` tests for odd length on the UTF-8 encoding of the string,
  because the code calls `data.encode()` first. `Hex.Utf8Length` models that
  encoded length.

## Model

| member | source | states |
|---|---|---|
| `Profile.Pack` | binary.py:135-154 | `write_T`'s encoding succeeds exactly when the value is in the type's range, yields exactly `Width(k)` bytes, and otherwise fails with `OutOfRange` |
| `Profile.Unpack` | binary.py:103-122 | `read_T`'s decoding succeeds exactly when it is given `Width(k)` bytes, and the value it yields lies in the type's range; otherwise it fails with `BufferSizeMismatch` |
| `ProfileProperties.RangeOfWidth` | binary.py:137-154 | `InRange`, the set of values `struct` packs into a field of `w` bytes, is `0 <= v < 256^w` for the unsigned formats and `-256^w <= 2v < 256^w` for the signed ones, split evenly around zero |
| `Profile.PackBool` | binary.py:135-136 | `write_bool` emits one byte, which `read_bool` decodes back to the same boolean |
| `Profile.UnpackBool` | binary.py:70-71 | `?` unpacking needs exactly one byte, fails with `BufferSizeMismatch` otherwise, and reads any nonzero byte as true |
| `Profile.LittleEndianValue` | binary.py:37-43 | the little-endian reading of `n` bytes is below 256^n |
| `Profile.BigEndianValue` | binary.py:23-29 | the big-endian reading of `n` bytes is below 256^n |
| `Profile.FromUnsigned` | binary.py:21-29 | every `n`-byte pattern decodes to a value within the type's range |
| `Profile.ToUnsigned` | binary.py:21-29 | an in-range value's two's-complement bit pattern is an unsigned number below 256^width |
| `Profile.EncodeUnsigned` | binary.py:18-45 | an unsigned field is always exactly `n` bytes, whatever the profile |
| `Profile.DecodeUnsigned` | binary.py:18-45 | `n` bytes read in either order give a number below 256^n |
| `ProfileProperties.DecodeEncodeUnsigned` | binary.py:18-45 | decoding undoes encoding for every unsigned number that fits the field, in both byte orders |
| `ProfileProperties.EncodeDecodeUnsigned` | binary.py:18-45 | encoding undoes decoding for every byte pattern, in both byte orders |
| `Profile.Reverse` | binary.py:32-45 | the little-endian table stores bytes in the reverse order, position by position |
| `ProfileProperties.LittleEndianRoundTrip` | binary.py:37-43 | the little-endian digits of any number below 256^n read back as that number |
| `ProfileProperties.LittleEndianDigitsOfValue` | binary.py:37-43 | writing the value of any byte sequence back out gives the same bytes |
| `ProfileProperties.BigEndianIsReversedLittleEndian` | binary.py:18-45 | the most-significant-first reading equals the least-significant-first reading of the reversed bytes |
| `ProfileProperties.UnpackPack` | binary.py:103-154 | every in-range integer written by `write_T` reads back unchanged with `read_T` under the same profile |
| `ProfileProperties.PackUnpack` | binary.py:103-154 | every `Width(k)`-byte pattern unpacks, and the value packs back to the same bytes, so encoding is a bijection |
| `ProfileProperties.ProfilesMirror` | binary.py:18-45 | `BE` bytes are the reversed `LE` bytes, and reversed bytes decode to the same value |
| `ProfileProperties.OneByteTypesIgnoreProfile` | binary.py:34-36 | `byte` and `ubyte` pack and unpack identically under both profiles |
| `ProfileProperties.SignBit` | binary.py:21-29 | a signed field decodes negative exactly when its most significant byte has the top bit set (first byte under `BE`, last under `LE`) |
| `ProfileProperties.AllOnesIsMinusOne` | test_binary.py:122-139 | all-`FF` bytes decode as -1 for every signed type under both profiles |
| `ProfileProperties.ByteOrderExamples` | test_binary.py:160-228 | `00 01` is 1 in `BE` and 256 in `LE`; `00 00 00 01` is 1 in `BE` and 16777216 in `LE`; the int 1 packs to `00 00 00 01` in `BE` and `01 00 00 00` in `LE` |
| `ProfileProperties.RangeExamples` | test_binary.py:398-577 | for each of the eight integer types, the smallest and largest values are accepted, and the first value past either end is refused. This covers the tested cases byte 128, ubyte -1, ushort 65535, int 2^31, uint -1, long 2^63 and ulong -1 |
| `Cursor.Slice` | binary.py:180-188 | `read(n)` returns `n` bytes, or all remaining bytes when `n` is negative or too large, each equal to the content at its offset from the cursor |
| `Cursor.Overwrite` | binary.py:180-188 | `write(b)` puts `b` at the cursor and keeps the other bytes. Any gap before the cursor is zero-filled, the length grows only as needed, and an empty write changes nothing |
| `Cursor.ReadAfterWrite` | binary.py:180-188 | reading back at the same position returns what was written |
| `Cursor.WriteBackSlice` | binary.py:180-188 | writing back bytes just read at the same position leaves the contents unchanged |
| `Cursor.ConsecutiveWrites` | binary.py:180-188 | two writes in a row are one write of their concatenation |
| `Cursor.WriteAtEndAppends` | binary.py:180-188 | a write at the end appends |
| `Hex.Hexlify` | binary.py:92-93 | the hex rendering of `n` bytes is `2n` lowercase hexadecimal digits |
| `Hex.DecodePairs` | binary.py:157-159 | decoded digit pairs give half as many bytes as there are digits; any other failure is `NonHexDigit` |
| `Hex.Unhexlify` | binary.py:157-159 | `unhexlify(s.encode())` yields half as many bytes as `s` has digits, and it fails only with `OddLengthHex` or `NonHexDigit`. An odd UTF-8 length is always `OddLengthHex` |
| `Hex.Utf8Length` | binary.py:157-159 | `s.encode()` takes between one and four bytes per character |
| `Hex.HexDigitsUtf8Length` | binary.py:157-159 | a string of hexadecimal digits encodes to one byte per character, so the odd-length test sees the digit count |
| `Hex.DecodePairsAccepts` | binary.py:157-159 | digit pairs decode exactly when the digits are all hexadecimal and there is an even number of them |
| `Hex.UnhexlifyAccepts` | binary.py:157-159 | `unhexlify` succeeds exactly on an even number of hex digits of either case |
| `Hex.UnhexlifyHexlify` | binary.py:208-213 | decoding the hex rendering of any bytes reproduces those bytes |
| `Hex.HexlifyUnhexlify` | binary.py:157-159 | rendering decoded bytes gives the input string, lowercased |
| `Hex.HexExample` | test_binary.py:352-358 | `00 01 FF` renders as `0001ff`, and `0001ff` decodes back |
| `Framing.FixedLength` | binary.py:163-166 | a fixed-length field has exactly `n` bytes: the payload's bytes where it has them, zero beyond |
| `Framing.Frame` | binary.py:163-166 | `write_length` fails only for a negative length. Without a length it passes the payload through unchanged. With a length `n >= 0` it gives the `Ns` packing `FixedLength(data, n)`: exactly `n` bytes, beginning with the payload's own bytes |
| `Framing.FixedLengthStable` | binary.py:163-166 | framing twice is framing once, and a payload of exactly the field's length is unchanged |
| `Framing.FixedLengthKeepsPayload` | binary.py:163-166 | a short payload is zero-padded and a long one truncated to its first `n` bytes |
| `Framing.FramingExamples` | test_binary.py:610-628 | `00 01 FF` framed to 1 byte is `00`, `ab` framed to 4 is `61 62 00 00`, no length leaves the payload unchanged, and a negative length fails |
| `Framing.Repeat` | binary.py:54-58 | `value * length` has `length` times as many bytes as `value`, and none when `length <= 0` |
| `Framing.RepeatAdd` | binary.py:54-58 | repeating `a` and then `b` times is repeating `a + b` times |
| `Framing.RepeatPeriodic` | binary.py:54-58 | `value * length` begins with `value` and then repeats itself every `len(value)` bytes |
| `Framing.RepeatOneByte` | binary.py:54-58 | repeating one byte gives a run of it, and the default zero byte gives zeros |
| `Framing.TruncateAtNul` | binary.py:94-101 | decoded text is cut to the prefix before the first NUL: the result has no NUL, and the next character of the input is NUL unless the whole input was kept |
| `Framing.DecodeText` | binary.py:127-133 | the text result exists exactly when the decoder accepts the bytes, and is the decoded text cut at its first NUL |
| `Framing.EncodeText` | binary.py:160-162 | `write_text`'s encoding yields the encoder's bytes exactly when the encoder accepts the text, and `TextEncodeFailed` otherwise |
| `Framing.NulPaddedText` | binary.py:127-133 | text without a NUL, followed by a NUL and anything else, reads back as that text |
| `Framing.TruncateExample` | test_binary.py:371-372 | `"ab\0cd"` reads as `"ab"` |
| `Binary.Buffer.constructor` | binary.py:186-188 | a new buffer holds the initial bytes with the cursor at 0 and the chosen profile |
| `Binary.Buffer.FromHex` | binary.py:207-213 | `from_hex` gives a fresh buffer holding the decoded bytes, or the hex decoding failure |
| `Binary.Buffer.Tell` | binary.py:180-188 | `tell` returns the cursor |
| `Binary.Buffer.Seek` | binary.py:180-188 | `seek` moves the cursor to any non-negative position, and refuses a negative one without moving |
| `Binary.Buffer.Read` | binary.py:180-188 | `read(n)` returns `Slice` of the contents at the cursor and advances past it |
| `Binary.Buffer.Write` | binary.py:180-188 | `write(b)` sets the contents to `Overwrite` at the cursor and advances past `b` |
| `Binary.Buffer.Snapshot` | binary.py:190-195 | `bytes(buffer)` is the whole contents, and the cursor is unchanged |
| `Binary.Buffer.Fill` | binary.py:54-58 | `fill` writes `value` repeated `length` times at the cursor |
| `Binary.Buffer.Peek` | binary.py:60-68 | `peek(n)` returns what `read(n)` would, and the cursor is unchanged |
| `Binary.Buffer.PeekBool` | binary.py:70-71 | `peek_bool` is true exactly when the next byte is nonzero, fails at the end, and leaves the cursor unchanged |
| `Binary.Buffer.ReadBool` | binary.py:103-104 | `read_bool` is true exactly when the next byte is nonzero and advances by one. At the end it fails without moving |
| `Binary.Buffer.WriteBool` | binary.py:135-136 | `write_bool` writes `01` or `00` and advances by one |
| `Binary.Buffer.PeekInt` | binary.py:72-89 | `peek_T` decodes the next `Width(k)` bytes under the profile. It succeeds exactly when that many remain, and it leaves the cursor unchanged even on failure |
| `Binary.Buffer.ReadInt` | binary.py:105-122 | `read_T` decodes the next `Width(k)` bytes and advances by `Width(k)`. With fewer left it fails, after moving past what remained |
| `Binary.Buffer.WriteInt` | binary.py:137-154 | `write_T` fails exactly for out-of-range values and then writes nothing. Otherwise it writes the packed bytes and advances by `Width(k)` |
| `Binary.Buffer.PeekHex` | binary.py:92-93 | `peek_hex(n)` renders the next `n` bytes as hex, which decodes back to those bytes, and leaves the cursor unchanged |
| `Binary.Buffer.ReadHex` | binary.py:125-126 | `read_hex(n)` renders the next `n` bytes as hex, which decodes back to those bytes, and advances by half the string's length |
| `Binary.Buffer.WriteLength` | binary.py:163-166 | `write_length` writes the framed payload, exactly `length` bytes when one is given, or fails and writes nothing |
| `Binary.Buffer.WriteHex` | binary.py:157-159 | `write_hex` decodes first, so a bad string writes nothing; otherwise it writes the framed bytes |
| `Binary.Buffer.PeekText` | binary.py:94-101 | `peek_text` returns the decoded text cut at the first NUL, and leaves the cursor unchanged even when decoding fails |
| `Binary.Buffer.ReadText` | binary.py:127-133 | `read_text` returns the decoded text cut at the first NUL, and advances past the bytes read whether or not decoding succeeds |
| `Binary.Buffer.WriteText` | binary.py:160-162 | `write_text` encodes and then frames. Text that cannot be encoded writes nothing |
| `Scenarios.PeekThenRead` | test_binary.py:97-112 | two peeks in a row and the following read return the same value, the contents are unchanged, and the read moves the cursor by `Width(k)` when it succeeds |
| `Scenarios.WriteThenReadBack` | binary.py:135-154 | an in-range value written by `write_T` reads back with `read_T` at the same position; an out-of-range value changes nothing |
| `Scenarios.HexReadWriteBack` | test_binary.py:352-358 | `read_hex` followed by `write_hex` of its result, at the same position, leaves the contents unchanged |
| `Scenarios.BufferFromHexlified` | test_binary.py:61-64 | a buffer built from the hex rendering of some bytes reads back as those bytes |
| `Scenarios.WriteBools` | test_binary.py:385-396 | `write_bool(True)` then `write_bool(False)` leave `01 00` under either profile |
| `Scenarios.ReadShorts` | test_binary.py:160-181 | the four tested shorts under `BE` and `LE`, and a fifth read fails |
| `Scenarios.ShortsOfTestData` | test_binary.py:160-181 | `00 00`, `00 01`, `01 00` and `FF FF` decode as 0, 1, 256 and -1 under `BE`, and as 0, 256, 1 and -1 under `LE` |
| `Scenarios.WriteHexFields` | test_binary.py:610-617 | the two tested `write_hex` calls leave `00 01 FF 00` |
| `Scenarios.FillRuns` | test_binary.py:89-94 | `fill(10)` then `fill(5, FF)` leave ten zeros followed by five `FF` bytes |
| `Scenarios.RejectedWrite` | test_binary.py:398-409 | `write_byte(128)` fails and leaves `00 01 FF` as they were |

## Left out

- `float` and `double` fields: IEEE-754 encoding, including NaN patterns, is
  not modelled.
- Character encodings (`utf-8` with `ignore`, `iso-8859-1`, a `strict`
  failure) are not modelled. `PeekText`, `ReadText` and `WriteText` take the
  decoder or encoder as a function parameter, so only the cursor movement,
  the framing and the cut at the first NUL are verified.
- `File` (binary.py:169-177) and `Buffer.from_file`: file-system I/O and
  descriptor ownership.
- `Wrapper` (binary.py:216-228): it forwards attribute lookups by reflection
  to an arbitrary object. The codec is modelled on `Buffer` alone, since
  Dafny classes here cannot share the mixin.
- Non-numeric arguments to `write_T` (the `'a'` cases in the tests): the
  Dafny types rule them out. `write_bool` takes a `bool`, while Python would
  accept the truth value of any object.
- The internals of `struct` and `binascii`. Explicit encode and decode
  functions stand in for them.
- `io.BytesIO` beyond `tell`, absolute `seek`, `read` and `write` is not
  modelled: relative seeks, `truncate`, `getvalue` and `close`.
  `Buffer(None)` is the empty buffer: the constructor takes a byte sequence.
- The eight `peek_<type>`, `read_<type>` and `write_<type>` integer methods
  are each one method, parameterised by the field type: `PeekInt`, `ReadInt`
  and `WriteInt`.
- The `symbol` entry of the profile tables only prefixes the `Ns` format. A
  string field has no byte order, so the symbol does not affect the output.
