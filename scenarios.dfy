/** Clients of `Buffer` that use nothing but its contracts: the promises the
    codec makes across several calls (peek agrees with the next read, a written
    field reads back, hex read and written back leaves the bytes alone), and
    the concrete cases of the test suite. */
module Scenarios {
  import opened Types
  import opened Profile
  import opened Cursor
  import opened Hex
  import opened Framing
  import opened Binary
  import ProfileProperties

  /** `peek_T` returns what the next `read_T` returns, and only the read moves
      the cursor, by exactly `Width(k)` when it succeeds. */
  method PeekThenRead(b: Buffer, k: IntKind)
    returns (peeked: Result<int, CodecError>, again: Result<int, CodecError>, read: Result<int, CodecError>)
    modifies b
    ensures peeked == again && again == read
    ensures read.Ok? ==> b.pos == old(b.pos) + Width(k)
    ensures b.data == old(b.data)
  {
    peeked := b.PeekInt(k);
    again := b.PeekInt(k);
    read := b.ReadInt(k);
  }

  /** Any in-range value written with `write_T` reads back unchanged with
      `read_T` from the same position; an out-of-range value writes nothing. */
  method WriteThenReadBack(b: Buffer, k: IntKind, v: int) returns (r: Result<int, CodecError>)
    modifies b
    ensures InRange(k, v) ==> r == Ok(v) && b.pos == old(b.pos) + Width(k)
    ensures !InRange(k, v) ==> r.Err? && b.data == old(b.data) && b.pos == old(b.pos)
  {
    var start := b.Tell();
    var written := b.WriteInt(k, v);
    if written.Fail? {
      r := Err(written.error);
      return;
    }
    var _ := b.Seek(start);
    ReadAfterWrite(old(b.data), start, Pack(b.endian, k, v).value);
    ProfileProperties.UnpackPack(b.endian, k, v);
    r := b.ReadInt(k);
  }

  /** `read_hex(n)` followed, at the same position, by `write_hex` of the
      string it returned leaves the contents as they were. */
  method HexReadWriteBack(b: Buffer, length: int) returns (s: string)
    modifies b
    ensures s == Hexlify(Slice(old(b.data), old(b.pos), length))
    ensures b.data == old(b.data)
    ensures b.pos == old(b.pos) + |s| / 2
  {
    var start := b.Tell();
    s := b.ReadHex(length);
    var _ := b.Seek(start);
    var written := b.WriteHex(s, None);
    WriteBackSlice(old(b.data), start, length);
  }

  /** `bytes(buffer)` after two booleans are written to an empty buffer is
      `01 00` under either profile. */
  method WriteBools(endian: Endian) returns (snapshot: seq<byte>)
    ensures snapshot == [1, 0]
  {
    var b := new Buffer([], endian);
    b.WriteBool(true);
    b.WriteBool(false);
    WriteAtEndAppends([1], [0]);
    snapshot := b.Snapshot();
  }

  /** Reading shorts from `00 00 00 01 01 00 FF FF`: 0, 1, 256, -1 under `BE`,
      and the middle two swapped under `LE`; a fifth read fails. */
  method ReadShorts(endian: Endian) returns (values: seq<int>, fifth: Result<int, CodecError>)
    ensures endian == BigEndian ==> values == [0, 1, 256, -1]
    ensures endian == LittleEndian ==> values == [0, 256, 1, -1]
    ensures fifth.Err?
  {
    var d: seq<byte> := [0x00, 0x00, 0x00, 0x01, 0x01, 0x00, 0xFF, 0xFF];
    var b := new Buffer(d, endian);
    ShortsOfTestData(endian);
    TestDataSlices(d);
    var r0 := b.ReadInt(Short);
    assert r0 == Ok(0) && b.pos == 2;
    var r1 := b.ReadInt(Short);
    assert r1 == Ok(if endian == BigEndian then 1 else 256) && b.pos == 4;
    var r2 := b.ReadInt(Short);
    assert r2 == Ok(if endian == BigEndian then 256 else 1) && b.pos == 6;
    var r3 := b.ReadInt(Short);
    assert r3 == Ok(-1) && b.pos == 8;
    values := [r0.value, r1.value, r2.value, r3.value];
    fifth := b.ReadInt(Short);
  }

  /** The test data cut into its four shorts. */
  lemma TestDataSlices(d: seq<byte>)
    requires d == [0x00, 0x00, 0x00, 0x01, 0x01, 0x00, 0xFF, 0xFF]
    ensures Slice(d, 0, 2) == [0x00, 0x00] && Slice(d, 2, 2) == [0x00, 0x01]
    ensures Slice(d, 4, 2) == [0x01, 0x00] && Slice(d, 6, 2) == [0xFF, 0xFF]
    ensures Slice(d, 8, 2) == []
  {
    assert Slice(d, 0, 2) == d[0..2];
    assert Slice(d, 2, 2) == d[2..4];
    assert Slice(d, 4, 2) == d[4..6];
    assert Slice(d, 6, 2) == d[6..8];
  }

  /** The four shorts of the test data under each profile. */
  lemma ShortsOfTestData(endian: Endian)
    ensures Unpack(endian, Short, [0x00, 0x00]) == Ok(0)
    ensures Unpack(endian, Short, [0x00, 0x01]) == Ok(if endian == BigEndian then 1 else 256)
    ensures Unpack(endian, Short, [0x01, 0x00]) == Ok(if endian == BigEndian then 256 else 1)
    ensures Unpack(endian, Short, [0xFF, 0xFF]) == Ok(-1)
  {
    ProfileProperties.PowersOf256();
    assert LittleEndianValue([0x00]) == 0 && LittleEndianValue([0x01]) == 1;
    assert LittleEndianValue([0xFF]) == 0xFF;
    assert LittleEndianValue([0x00, 0x00]) == 0 && LittleEndianValue([0xFF, 0xFF]) == 0xFFFF;
    assert LittleEndianValue([0x00, 0x01]) == 256 && LittleEndianValue([0x01, 0x00]) == 1;
    assert BigEndianValue([0x00, 0x00]) == 0 && BigEndianValue([0xFF, 0xFF]) == 0xFFFF;
    assert BigEndianValue([0x00, 0x01]) == 1 && BigEndianValue([0x01, 0x00]) == 256;
    assert FromUnsigned(Short, 0xFFFF) == -1;
  }

  /** `write_hex('0001ff')` then `write_hex('0001ff', length=1)` on an empty
      buffer leaves `00 01 FF 00`. */
  method WriteHexFields() returns (snapshot: seq<byte>)
    ensures snapshot == [0x00, 0x01, 0xFF, 0x00]
  {
    var b := new Buffer([], BigEndian);
    HexExample();
    FramingExamples();
    var _ := b.WriteHex("0001ff", None);
    var _ := b.WriteHex("0001ff", Some(1));
    WriteAtEndAppends([0x00, 0x01, 0xFF], [0x00]);
    snapshot := b.Snapshot();
  }

  /** `fill(10)` then `fill(5, b'\xFF')` on an empty buffer writes ten zero
      bytes followed by five `FF` bytes. */
  method FillRuns() returns (snapshot: seq<byte>)
    ensures snapshot == Zeros(10) + Repeat([0xFF], 5)
    ensures |snapshot| == 15
    ensures forall i :: 0 <= i < 10 ==> snapshot[i] == 0
    ensures forall i :: 10 <= i < 15 ==> snapshot[i] == 0xFF
  {
    var b := new Buffer([], BigEndian);
    b.Fill(10, [0x00]);
    b.Fill(5, [0xFF]);
    RepeatOneByte(0x00, 10);
    RepeatOneByte(0xFF, 5);
    WriteAtEndAppends([], Zeros(10));
    WriteAtEndAppends(Zeros(10), Repeat([0xFF], 5));
    snapshot := b.Snapshot();
  }

  /** `Buffer.from_hex` of the hexadecimal rendering of some bytes holds
      exactly those bytes, and reading it whole returns them. */
  method BufferFromHexlified(bytes: seq<byte>) returns (contents: seq<byte>)
    ensures contents == bytes
  {
    UnhexlifyHexlify(bytes);
    var r := Buffer.FromHex(Hexlify(bytes), BigEndian);
    var b := r.value;
    contents := b.Read(-1);
  }

  /** A write the profile refuses leaves the buffer untouched: `write_byte(128)`
      after `00 01 FF` were written. */
  method RejectedWrite() returns (snapshot: seq<byte>, outcome: Outcome<CodecError>)
    ensures outcome == Fail(OutOfRange(Byte, 128))
    ensures snapshot == [0x00, 0x01, 0xFF]
  {
    var b := new Buffer([0x00, 0x01, 0xFF], BigEndian);
    var _ := b.Seek(3);
    assert Half(Byte) == 128;
    outcome := b.WriteInt(Byte, 128);
    snapshot := b.Snapshot();
  }
}
