/** What the profile tables promise: every in-range value packs to bytes that
    unpack to it again, every byte pattern of the right size unpacks to a value
    that packs back to it, the two profiles differ exactly by byte order, the
    one-byte types do not depend on the profile, and signed types are two's
    complement. */
module ProfileProperties {
  import opened Types
  import opened Profile

  /** Reading back the digits of `u` gives `u`, when `u` has at most `n` digits. */
  lemma {:induction false} LittleEndianRoundTrip(u: nat, n: nat)
    requires u < Pow256(n)
    ensures LittleEndianValue(LittleEndianBytes(u, n)) == u
  {
    if n > 0 {
      var digits := LittleEndianBytes(u, n);
      assert digits[1..] == LittleEndianBytes(u / 256, n - 1);
      LittleEndianRoundTrip(u / 256, n - 1);
    }
  }

  /** Writing out the value of `b` in `|b|` digits gives `b` again. */
  lemma {:induction false} LittleEndianDigitsOfValue(b: seq<byte>)
    ensures LittleEndianBytes(LittleEndianValue(b), |b|) == b
  {
    if b != [] {
      var u := LittleEndianValue(b);
      assert u % 256 == b[0] && u / 256 == LittleEndianValue(b[1..]);
      LittleEndianDigitsOfValue(b[1..]);
    }
  }

  /** Appending a most significant digit `x` adds `x` times the place value. */
  lemma {:induction false} LittleEndianAppend(s: seq<byte>, x: byte)
    ensures LittleEndianValue(s + [x]) == LittleEndianValue(s) + x * Pow256(|s|)
  {
    if s != [] {
      var t := s[1..];
      assert (s + [x])[1..] == t + [x];
      LittleEndianAppend(t, x);
      ScaleDigit(x, Pow256(|t|));
    }
  }

  /** Moving the factor 256 past a digit. */
  lemma ScaleDigit(x: nat, p: nat)
    ensures 256 * (x * p) == x * (256 * p)
  {
  }

  /** Most-significant-first reading is least-significant-first reading of the
      reversed bytes. */
  lemma {:induction false} BigEndianIsReversedLittleEndian(b: seq<byte>)
    ensures BigEndianValue(b) == LittleEndianValue(Reverse(b))
  {
    if b != [] {
      BigEndianIsReversedLittleEndian(b[1..]);
      assert Reverse(b) == Reverse(b[1..]) + [b[0]];
      LittleEndianAppend(Reverse(b[1..]), b[0]);
    }
  }

  /** Reversing twice gives the original bytes. */
  lemma ReverseReverse(s: seq<byte>)
    ensures Reverse(Reverse(s)) == s
  {
    assert forall i :: 0 <= i < |s| ==> Reverse(Reverse(s))[i] == s[i];
  }

  /** Decoding undoes encoding for every unsigned number that fits. */
  lemma DecodeEncodeUnsigned(order: Endian, u: nat, n: nat)
    requires u < Pow256(n)
    ensures DecodeUnsigned(order, EncodeUnsigned(order, u, n)) == u
  {
    LittleEndianRoundTrip(u, n);
    if order == BigEndian {
      var digits := LittleEndianBytes(u, n);
      BigEndianIsReversedLittleEndian(Reverse(digits));
      ReverseReverse(digits);
    }
  }

  /** Encoding undoes decoding for every byte pattern. */
  lemma EncodeDecodeUnsigned(order: Endian, b: seq<byte>)
    ensures EncodeUnsigned(order, DecodeUnsigned(order, b), |b|) == b
  {
    if order == LittleEndian {
      LittleEndianDigitsOfValue(b);
    } else {
      BigEndianIsReversedLittleEndian(b);
      LittleEndianDigitsOfValue(Reverse(b));
      ReverseReverse(b);
    }
  }

  /** The signed range is split evenly around zero and the modulus is twice its half. */
  lemma ModulusIsTwoHalves(k: IntKind)
    ensures Modulus(k) == 2 * Half(k)
  {
  }

  /** Round trip of the profile: every value `write_T` accepts reads back unchanged
      with `read_T` under the same profile. */
  lemma UnpackPack(e: Endian, k: IntKind, v: int)
    requires InRange(k, v)
    ensures Unpack(e, k, Pack(e, k, v).value) == Ok(v)
  {
    ModulusIsTwoHalves(k);
    var u, n := ToUnsigned(k, v), Width(k);
    assert Pack(e, k, v) == Ok(EncodeUnsigned(e, u, n));
    DecodeEncodeUnsigned(e, u, n);
    assert FromUnsigned(k, u) == v;
  }

  /** The other direction: every `Width(k)`-byte pattern unpacks to a value that
      packs back to the same bytes, so the encoding is a bijection between the
      range and the byte patterns. */
  lemma PackUnpack(e: Endian, k: IntKind, b: seq<byte>)
    requires |b| == Width(k)
    ensures Unpack(e, k, b).Ok?
    ensures Pack(e, k, Unpack(e, k, b).value) == Ok(b)
  {
    ModulusIsTwoHalves(k);
    EncodeDecodeUnsigned(e, b);
  }

  /** The two profiles differ only in byte order: the big-endian bytes of a value
      are its little-endian bytes reversed, and reversed bytes decode alike. */
  lemma ProfilesMirror(k: IntKind, v: int, b: seq<byte>)
    ensures InRange(k, v) ==> Pack(BigEndian, k, v).value == Reverse(Pack(LittleEndian, k, v).value)
    ensures Unpack(BigEndian, k, b) == Unpack(LittleEndian, k, Reverse(b))
  {
    BigEndianIsReversedLittleEndian(b);
  }

  /** `byte` and `ubyte` behave identically under both profiles (`bool` does
      not consult the profile at all: see `PackBool`). */
  lemma OneByteTypesIgnoreProfile(k: IntKind, v: int, b: seq<byte>)
    requires Width(k) == 1
    ensures Pack(BigEndian, k, v) == Pack(LittleEndian, k, v)
    ensures Unpack(BigEndian, k, b) == Unpack(LittleEndian, k, b)
  {
    if |b| == 1 {
      assert b[1..] == [];
    }
    if InRange(k, v) {
      var digits := LittleEndianBytes(ToUnsigned(k, v), 1);
      assert Reverse(digits) == digits;
    }
  }

  /** The byte holding the sign bit: first under `BE`, last under `LE`. */
  function MostSignificantByte(e: Endian, b: seq<byte>): byte
    requires b != []
  {
    if e == BigEndian then b[0] else b[|b| - 1]
  }

  /** Splitting off the most significant digit. */
  lemma LittleEndianSplitLast(b: seq<byte>)
    requires b != []
    ensures LittleEndianValue(b) == LittleEndianValue(b[..|b| - 1]) + b[|b| - 1] * Pow256(|b| - 1)
  {
    var low, top := b[..|b| - 1], b[|b| - 1];
    LittleEndianAppend(low, top);
    assert low + [top] == b;
  }

  /** With lower digits worth less than one place value `p`, the number reaches
      `128 * p` exactly when its top digit `x` is at least 128. */
  lemma TopDigitDecidesHalf(x: byte, low: nat, p: nat)
    requires low < p
    ensures x >= 128 <==> x * p + low >= 128 * p
  {
    if x >= 128 {
      MulBound(128, x, p);
    } else {
      MulBound(x, 127, p);
    }
  }

  /** A signed field's bit pattern stands for a negative value exactly when it
      is at least half the modulus. */
  lemma SignOfPattern(k: IntKind, u: nat)
    requires IsSigned(k) && u < Modulus(k)
    ensures FromUnsigned(k, u) < 0 <==> u >= Half(k)
  {
    ModulusIsTwoHalves(k);
  }

  /** Two's complement: a signed field reads as negative exactly when the sign
      bit of its most significant byte is set. */
  lemma SignBit(e: Endian, k: IntKind, b: seq<byte>)
    requires IsSigned(k) && |b| == Width(k)
    ensures Unpack(e, k, b).Ok?
    ensures Unpack(e, k, b).value < 0 <==> MostSignificantByte(e, b) >= 128
  {
    var n := |b|;
    SignOfPattern(k, DecodeUnsigned(e, b));
    if e == LittleEndian {
      LittleEndianSplitLast(b);
      TopDigitDecidesHalf(b[n - 1], LittleEndianValue(b[..n - 1]), Pow256(n - 1));
    } else {
      TopDigitDecidesHalf(b[0], BigEndianValue(b[1..]), Pow256(n - 1));
    }
  }

  /** `n` bytes of `0xFF`. */
  function AllOnes(n: nat): (r: seq<byte>)
    ensures |r| == n
    ensures forall i :: 0 <= i < n ==> r[i] == 255
  {
    if n == 0 then [] else [255] + AllOnes(n - 1)
  }

  /** `n` bytes of `0xFF` are the largest `n`-digit number. */
  lemma {:induction false} AllOnesValue(n: nat)
    ensures LittleEndianValue(AllOnes(n)) == Pow256(n) - 1
    ensures Reverse(AllOnes(n)) == AllOnes(n)
  {
    if n > 0 {
      assert AllOnes(n)[1..] == AllOnes(n - 1);
      AllOnesValue(n - 1);
    }
    assert forall i :: 0 <= i < n ==> Reverse(AllOnes(n))[i] == AllOnes(n)[i];
  }

  /** A signed field whose bytes are all `0xFF` reads as -1 under both profiles
      (`FF` as a byte, `FFFF FFFF` as an int). */
  lemma AllOnesIsMinusOne(e: Endian, k: IntKind)
    requires IsSigned(k)
    ensures Unpack(e, k, AllOnes(Width(k))) == Ok(-1)
  {
    var b := AllOnes(Width(k));
    AllOnesValue(Width(k));
    BigEndianIsReversedLittleEndian(b);
    ModulusIsTwoHalves(k);
  }

  /** The byte-order cases pinned by the tests: `00 01` is 1 as a big-endian
      short and 256 as a little-endian one; `00 00 00 01` is 1 as a big-endian
      int and 16777216 as a little-endian one. */
  lemma ByteOrderExamples()
    ensures Unpack(BigEndian, Short, [0, 1]) == Ok(1)
    ensures Unpack(LittleEndian, Short, [0, 1]) == Ok(256)
    ensures Unpack(BigEndian, Int, [0, 0, 0, 1]) == Ok(1)
    ensures Unpack(LittleEndian, Int, [0, 0, 0, 1]) == Ok(16777216)
    ensures Pack(BigEndian, Int, 1) == Ok([0, 0, 0, 1])
    ensures Pack(LittleEndian, Int, 1) == Ok([1, 0, 0, 0])
  {
    PowersOf256();
    assert LittleEndianValue([1]) == 1 && LittleEndianValue([0, 1]) == 256;
    assert LittleEndianValue([0, 0, 0, 1]) == 16777216;
    assert BigEndianValue([1]) == 1 && BigEndianValue([0, 1]) == 1;
    assert BigEndianValue([0, 0, 0, 1]) == 1;
    assert LittleEndianBytes(1, 4) == [1, 0, 0, 0];
    assert Reverse([1, 0, 0, 0]) == [0, 0, 0, 1];
  }

  /** The place values of the field widths. */
  lemma PowersOf256()
    ensures Pow256(1) == 0x100 && Pow256(2) == 0x1_0000 && Pow256(3) == 0x100_0000
    ensures Pow256(4) == 0x1_0000_0000 && Pow256(7) == 0x100_0000_0000_0000
    ensures Pow256(8) == 0x1_0000_0000_0000_0000
  {
    assert Pow256(4) == 0x1_0000_0000;
    assert Pow256(7) == 0x100_0000_0000_0000;
  }

  /** The range limits the tests probe: each type's extreme values are
      accepted and the first value past either end is rejected. */
  lemma RangeExamples()
    ensures InRange(Byte, -128) && InRange(Byte, 127) && !InRange(Byte, 128) && !InRange(Byte, -129)
    ensures InRange(UByte, 0) && InRange(UByte, 255) && !InRange(UByte, 256) && !InRange(UByte, -1)
    ensures InRange(Short, -32768) && InRange(Short, 32767) && !InRange(Short, 32768) && !InRange(Short, -32769)
    ensures InRange(UShort, 0) && InRange(UShort, 65535) && !InRange(UShort, 65536) && !InRange(UShort, -1)
    ensures InRange(Int, -2147483648) && InRange(Int, 2147483647)
    ensures !InRange(Int, 2147483648) && !InRange(Int, -2147483649)
    ensures InRange(UInt, 0) && InRange(UInt, 4294967295) && !InRange(UInt, -1) && !InRange(UInt, 4294967296)
    ensures InRange(Long, -9223372036854775808) && InRange(Long, 9223372036854775807)
    ensures !InRange(Long, 9223372036854775808) && !InRange(Long, -9223372036854775809)
    ensures InRange(ULong, 0) && InRange(ULong, 18446744073709551615)
    ensures !InRange(ULong, 18446744073709551616) && !InRange(ULong, -1)
  {
    PowersOf256();
    Limits(Byte, -0x80, 0x7F);
    Limits(UByte, 0, 0xFF);
    Limits(Short, -0x8000, 0x7FFF);
    Limits(UShort, 0, 0xFFFF);
    Limits(Int, -0x8000_0000, 0x7FFF_FFFF);
    Limits(UInt, 0, 0xFFFF_FFFF);
    Limits(Long, -0x8000_0000_0000_0000, 0x7FFF_FFFF_FFFF_FFFF);
    Limits(ULong, 0, 0xFFFF_FFFF_FFFF_FFFF);
  }

  /** With `lo` and `hi` the ends of the range of `k`, both ends are accepted
      and the values just past them are refused. */
  lemma Limits(k: IntKind, lo: int, hi: int)
    requires lo == MinValue(k) && hi == MaxValue(k)
    ensures InRange(k, lo) && InRange(k, hi) && !InRange(k, lo - 1) && !InRange(k, hi + 1)
  {
  }

  /** The values `struct` packs into a field of `w` bytes: `0 <= v < 256^w`
      unsigned, and `-256^w <= 2 * v < 256^w` signed, so a signed field's range
      is split evenly around zero. */
  lemma RangeOfWidth(k: IntKind, v: int)
    ensures IsSigned(k) ==> (InRange(k, v) <==> -(Modulus(k) as int) <= 2 * v < Modulus(k))
    ensures !IsSigned(k) ==> (InRange(k, v) <==> 0 <= v < Modulus(k))
  {
    ModulusIsTwoHalves(k);
  }
}
