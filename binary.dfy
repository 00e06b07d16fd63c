/** The in-memory binary buffer: an `io.BytesIO` cursor (contents and position)
    with the typed codec of `_Binary` layered on top. Every codec method works,
    as the source's do, only through the four cursor operations `Tell`, `Seek`,
    `Read` and `Write`; its contract ties the result and the new state to the
    pure functions of `Profile`, `Hex`, `Framing` and `Cursor`. */
module Binary {
  import opened Types
  import opened Profile
  import opened Cursor
  import opened Hex
  import opened Framing

  class Buffer {
    /** The bytes held by the buffer. */
    var data: seq<byte>
    /** The cursor; it may lie past the end of `data`, as after a long seek. */
    var pos: nat
    /** The byte-order profile the typed fields use. */
    const endian: Endian

    /** `Buffer(initial_bytes, endian)`: the given bytes, cursor at the start. */
    constructor (initial: seq<byte>, endian: Endian)
      ensures data == initial && pos == 0 && this.endian == endian
    {
      data := initial;
      pos := 0;
      this.endian := endian;
    }

    /** `Buffer.from_hex(hex, endian)`: a buffer holding the decoded bytes, or
        the decoding failure and no buffer. */
    static method FromHex(hex: string, endian: Endian) returns (r: Result<Buffer, CodecError>)
      ensures Unhexlify(hex).Err? ==> r == Err(Unhexlify(hex).error)
      ensures Unhexlify(hex).Ok? ==> r.Ok? && fresh(r.value)
      ensures Unhexlify(hex).Ok? ==> r.value.data == Unhexlify(hex).value
      ensures Unhexlify(hex).Ok? ==> r.value.pos == 0 && r.value.endian == endian
    {
      match Unhexlify(hex)
      case Err(e) =>
        r := Err(e);
      case Ok(bytes) =>
        var b := new Buffer(bytes, endian);
        r := Ok(b);
    }

    // ---- the cursor operations of io.BytesIO ----

    /** `tell()`: the cursor. */
    method Tell() returns (p: nat)
      ensures p == pos
    {
      p := pos;
    }

    /** `seek(p)`: move the cursor to `p`, which may lie past the end; a
        negative position is refused and the cursor stays. */
    method Seek(p: int) returns (r: Result<nat, CodecError>)
      modifies this`pos
      ensures p < 0 ==> r == Err(NegativeSeek(p)) && pos == old(pos)
      ensures p >= 0 ==> r == Ok(p) && pos == p
    {
      if p < 0 {
        r := Err(NegativeSeek(p));
      } else {
        pos := p;
        r := Ok(p);
      }
    }

    /** `read(n)`: up to `n` bytes (all remaining ones when `n` is negative),
        advancing the cursor past what was returned. */
    method Read(n: int) returns (b: seq<byte>)
      modifies this`pos
      ensures b == Slice(data, old(pos), n)
      ensures pos == old(pos) + |b|
    {
      b := Slice(data, pos, n);
      pos := pos + |b|;
    }

    /** `write(b)`: overwrite from the cursor, extending the contents (and
        zero-filling a gap) as needed, and advance the cursor past `b`. */
    method Write(b: seq<byte>)
      modifies this`data, this`pos
      ensures data == Overwrite(old(data), old(pos), b)
      ensures pos == old(pos) + |b|
    {
      data := Overwrite(data, pos, b);
      pos := pos + |b|;
    }

    // ---- _Binary ----

    /** `bytes(buffer)`: the whole contents; the cursor is saved and restored. */
    method Snapshot() returns (b: seq<byte>)
      modifies this`pos
      ensures b == data
      ensures pos == old(pos)
    {
      var pointer := Tell();
      var _ := Seek(0);
      b := Read(-1);
      var _ := Seek(pointer);
    }

    /** `fill(length, value)`: write `value` repeated `length` times. */
    method Fill(length: int, value: seq<byte>)
      modifies this`data, this`pos
      ensures data == Overwrite(old(data), old(pos), Repeat(value, length))
      ensures pos == old(pos) + |Repeat(value, length)|
    {
      Write(Repeat(value, length));
    }

    /** `peek(length)`: what `read(length)` would return; the cursor is put
        back where it was. */
    method Peek(length: int) returns (b: seq<byte>)
      modifies this`pos
      ensures b == Slice(data, pos, length)
      ensures pos == old(pos)
    {
      var position := Tell();
      b := Read(length);
      var _ := Seek(position);
    }

    /** `peek_bool()`: the next byte as a boolean, cursor unchanged; fails at
        the end of the contents. */
    method PeekBool() returns (r: Result<bool, CodecError>)
      modifies this`pos
      ensures r == UnpackBool(Slice(data, pos, 1))
      ensures r.Ok? <==> pos < |data|
      ensures r.Ok? ==> (r.value <==> data[pos] != 0)
      ensures pos == old(pos)
    {
      var raw := Peek(1);
      r := UnpackBool(raw);
    }

    /** `read_bool()`: the next byte as a boolean (nonzero is true); the
        cursor moves past what was read even when it is too little. */
    method ReadBool() returns (r: Result<bool, CodecError>)
      modifies this`pos
      ensures r == UnpackBool(Slice(data, old(pos), 1))
      ensures r.Ok? <==> old(pos) < |data|
      ensures r.Ok? ==> (r.value <==> data[old(pos)] != 0) && pos == old(pos) + 1
      ensures r.Err? ==> pos == old(pos)
    {
      var raw := Read(1);
      r := UnpackBool(raw);
    }

    /** `write_bool(v)`: write the byte 1 or 0. */
    method WriteBool(v: bool)
      modifies this`data, this`pos
      ensures data == Overwrite(old(data), old(pos), [if v then 1 else 0])
      ensures pos == old(pos) + 1
    {
      Write(PackBool(v));
    }

    /** `peek_byte()` .. `peek_ulong()`: the next field of kind `k` under the
        buffer's profile, cursor unchanged even when the field is incomplete. */
    method PeekInt(k: IntKind) returns (r: Result<int, CodecError>)
      modifies this`pos
      ensures r == Unpack(endian, k, Slice(data, pos, Width(k)))
      ensures r.Ok? <==> pos + Width(k) <= |data|
      ensures pos == old(pos)
    {
      var raw := Peek(Width(k));
      r := Unpack(endian, k, raw);
    }

    /** `read_byte()` .. `read_ulong()`: the next field of kind `k`; the cursor
        advances by `Width(k)`. With fewer bytes left the read fails instead of
        returning a partial value, though the cursor has moved past the bytes
        that were there. */
    method ReadInt(k: IntKind) returns (r: Result<int, CodecError>)
      modifies this`pos
      ensures r == Unpack(endian, k, Slice(data, old(pos), Width(k)))
      ensures r.Ok? <==> old(pos) + Width(k) <= |data|
      ensures r.Ok? ==> pos == old(pos) + Width(k)
      ensures r.Err? ==> pos == old(pos) + Remaining(data, old(pos))
    {
      var raw := Read(Width(k));
      r := Unpack(endian, k, raw);
    }

    /** `write_byte(v)` .. `write_ulong(v)`: pack `v` first, so that a value out
        of range is refused and nothing is written; otherwise write its
        `Width(k)` bytes. */
    method WriteInt(k: IntKind, v: int) returns (r: Outcome<CodecError>)
      modifies this`data, this`pos
      ensures r.Fail? <==> !InRange(k, v)
      ensures r.Fail? ==> r.error == OutOfRange(k, v) && data == old(data) && pos == old(pos)
      ensures r.Pass? ==> data == Overwrite(old(data), old(pos), Pack(endian, k, v).value)
      ensures r.Pass? ==> pos == old(pos) + Width(k)
    {
      match Pack(endian, k, v)
      case Err(e) =>
        r := Fail(e);
      case Ok(bytes) =>
        Write(bytes);
        r := Pass;
    }

    /** `peek_hex(length)`: the next `length` bytes as lowercase hex, cursor unchanged. */
    method PeekHex(length: int) returns (s: string)
      modifies this`pos
      ensures s == Hexlify(Slice(data, pos, length))
      ensures Unhexlify(s) == Ok(Slice(data, pos, length))
      ensures pos == old(pos)
    {
      var raw := Peek(length);
      s := Hexlify(raw);
      UnhexlifyHexlify(raw);
    }

    /** `read_hex(length)`: the next `length` bytes as lowercase hex, two digits
        per byte, which `unhexlify` turns back into those bytes. */
    method ReadHex(length: int) returns (s: string)
      modifies this`pos
      ensures s == Hexlify(Slice(data, old(pos), length))
      ensures Unhexlify(s) == Ok(Slice(data, old(pos), length))
      ensures pos == old(pos) + |s| / 2
    {
      var raw := Read(length);
      s := Hexlify(raw);
      UnhexlifyHexlify(raw);
    }

    /** `write_length(bytes, length)`: write the bytes, packed first to exactly
        `length` bytes when a length is given. */
    method WriteLength(bytes: seq<byte>, length: Option<int>) returns (r: Outcome<CodecError>)
      modifies this`data, this`pos
      ensures r.Fail? <==> Frame(bytes, length).Err?
      ensures r.Fail? ==> r.error == Frame(bytes, length).error && data == old(data) && pos == old(pos)
      ensures r.Pass? ==> data == Overwrite(old(data), old(pos), Frame(bytes, length).value)
      ensures r.Pass? ==> pos == old(pos) + |Frame(bytes, length).value|
      ensures r.Pass? && length.Some? ==> pos == old(pos) + length.value
    {
      match Frame(bytes, length)
      case Err(e) =>
        r := Fail(e);
      case Ok(field) =>
        Write(field);
        r := Pass;
    }

    /** `write_hex(hex, length)`: decode the hex string first, so that a bad
        string is refused and nothing is written; then `write_length`. */
    method WriteHex(hex: string, length: Option<int>) returns (r: Outcome<CodecError>)
      modifies this`data, this`pos
      ensures Unhexlify(hex).Err? ==> r == Fail(Unhexlify(hex).error) && data == old(data) && pos == old(pos)
      ensures Unhexlify(hex).Ok? && Frame(Unhexlify(hex).value, length).Err? ==>
        r == Fail(Frame(Unhexlify(hex).value, length).error) && data == old(data) && pos == old(pos)
      ensures Unhexlify(hex).Ok? && Frame(Unhexlify(hex).value, length).Ok? ==>
        r == Pass
        && data == Overwrite(old(data), old(pos), Frame(Unhexlify(hex).value, length).value)
        && pos == old(pos) + |Frame(Unhexlify(hex).value, length).value|
    {
      match Unhexlify(hex)
      case Err(e) =>
        r := Fail(e);
      case Ok(bytes) =>
        r := WriteLength(bytes, length);
    }

    /** `peek_text(length, encoding, error)`: the next `length` bytes decoded by
        `decode` and cut at the first NUL; the cursor is back in place even
        when decoding fails. */
    method PeekText(length: int, decode: seq<byte> -> Option<string>) returns (r: Result<string, CodecError>)
      modifies this`pos
      ensures r == DecodeText(Slice(data, pos, length), decode)
      ensures r.Ok? ==> '\0' !in r.value
      ensures pos == old(pos)
    {
      var raw := Peek(length);
      r := DecodeText(raw, decode);
    }

    /** `read_text(length, encoding, error)`: the next `length` bytes decoded by
        `decode` and cut at the first NUL; the cursor moves past the bytes
        read whether or not decoding succeeds. */
    method ReadText(length: int, decode: seq<byte> -> Option<string>) returns (r: Result<string, CodecError>)
      modifies this`pos
      ensures r == DecodeText(Slice(data, old(pos), length), decode)
      ensures r.Ok? ==> '\0' !in r.value
      ensures pos == old(pos) + |Slice(data, old(pos), length)|
    {
      var raw := Read(length);
      r := DecodeText(raw, decode);
    }

    /** `write_text(text, encoding, length)`: encode with `encode`, then
        `write_length`; text that cannot be encoded writes nothing. */
    method WriteText(text: string, encode: string -> Option<seq<byte>>, length: Option<int>) returns (r: Outcome<CodecError>)
      modifies this`data, this`pos
      ensures encode(text).None? ==> r == Fail(TextEncodeFailed) && data == old(data) && pos == old(pos)
      ensures encode(text).Some? ==> (r.Fail? <==> Frame(encode(text).value, length).Err?)
      ensures encode(text).Some? && r.Fail? ==> data == old(data) && pos == old(pos)
      ensures encode(text).Some? && r.Pass? ==>
        data == Overwrite(old(data), old(pos), Frame(encode(text).value, length).value)
        && pos == old(pos) + |Frame(encode(text).value, length).value|
    {
      match EncodeText(text, encode)
      case Err(e) =>
        r := Fail(e);
      case Ok(bytes) =>
        r := WriteLength(bytes, length);
    }
  }
}
