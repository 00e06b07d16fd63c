/** The byte-order profiles `BE` and `LE` (binary.py:18-45): for every integer
    field type, the encoding `struct.Struct.pack` performs and the decoding
    `struct.Struct.unpack` performs, stated as pure functions. Unsigned values
    are base-256 digits; signed values are two's complement over the field's
    width. */
module Profile {
  import opened Types

  /** 256 to the power `n`: the number of distinct `n`-byte patterns. */
  function Pow256(n: nat): (r: nat)
    ensures r >= 1
  {
    if n == 0 then 1 else 256 * Pow256(n - 1)
  }

  /** Number of distinct values a field of kind `k` can hold. */
  function Modulus(k: IntKind): nat
  {
    Pow256(Width(k))
  }

  /** Half the modulus: the first unsigned pattern whose sign bit is set. */
  function Half(k: IntKind): nat
  {
    128 * Pow256(Width(k) - 1)
  }

  /** Smallest value `pack` accepts for kind `k`. */
  function MinValue(k: IntKind): int
  {
    if IsSigned(k) then -(Half(k) as int) else 0
  }

  /** Largest value `pack` accepts for kind `k`. */
  function MaxValue(k: IntKind): int
  {
    if IsSigned(k) then Half(k) - 1 else Modulus(k) - 1
  }

  /** The values `pack` accepts for kind `k`; every other value is rejected. */
  predicate InRange(k: IntKind, v: int)
  {
    MinValue(k) <= v <= MaxValue(k)
  }

  /** The `n` base-256 digits of `u`, least significant first. */
  function LittleEndianBytes(u: nat, n: nat): (r: seq<byte>)
    ensures |r| == n
  {
    if n == 0 then [] else [u % 256] + LittleEndianBytes(u / 256, n - 1)
  }

  /** The number whose base-256 digits, least significant first, are `b`. */
  function LittleEndianValue(b: seq<byte>): (u: nat)
    ensures u < Pow256(|b|)
  {
    if b == [] then 0 else b[0] + 256 * LittleEndianValue(b[1..])
  }

  /** The number whose base-256 digits, most significant first, are `b`. */
  function BigEndianValue(b: seq<byte>): (u: nat)
    ensures u < Pow256(|b|)
  {
    if b == [] then 0
    else
      var rest := BigEndianValue(b[1..]);
      MulBound(b[0], 255, Pow256(|b| - 1));
      b[0] * Pow256(|b| - 1) + rest
  }

  /** `s` read back to front. */
  function Reverse(s: seq<byte>): (r: seq<byte>)
    ensures |r| == |s|
    ensures forall i :: 0 <= i < |s| ==> r[i] == s[|s| - 1 - i]
  {
    if s == [] then [] else Reverse(s[1..]) + [s[0]]
  }

  /** The `n` bytes of the unsigned number `u` in byte order `order`. */
  function EncodeUnsigned(order: Endian, u: nat, n: nat): (r: seq<byte>)
    ensures |r| == n
  {
    var digits := LittleEndianBytes(u, n);
    if order == LittleEndian then digits else Reverse(digits)
  }

  /** The unsigned number the bytes `b` stand for in byte order `order`. */
  function DecodeUnsigned(order: Endian, b: seq<byte>): (u: nat)
    ensures u < Pow256(|b|)
  {
    if order == LittleEndian then LittleEndianValue(b) else BigEndianValue(b)
  }

  /** The bit pattern, as an unsigned number, that stores `v` in a field of kind `k`. */
  function ToUnsigned(k: IntKind, v: int): (u: nat)
    requires InRange(k, v)
    ensures u < Modulus(k)
  {
    if v < 0 then v + Modulus(k) else v
  }

  /** The value of kind `k` whose bit pattern is the unsigned number `u`. */
  function FromUnsigned(k: IntKind, u: nat): (v: int)
    requires u < Modulus(k)
    ensures InRange(k, v)
  {
    if IsSigned(k) && u > MaxValue(k) then u - Modulus(k) else u
  }

  /** `pack` of an integer field under profile `e`: the field's bytes, or a
      range error when `v` does not fit. */
  function Pack(e: Endian, k: IntKind, v: int): (r: Result<seq<byte>, CodecError>)
    ensures r.Ok? <==> InRange(k, v)
    ensures r.Ok? ==> |r.value| == Width(k)
    ensures r.Err? ==> r.error == OutOfRange(k, v)
  {
    if !InRange(k, v) then Err(OutOfRange(k, v))
    else Ok(EncodeUnsigned(e, ToUnsigned(k, v), Width(k)))
  }

  /** `unpack` of an integer field under profile `e`: the decoded value, or a
      size error unless exactly `Width(k)` bytes are given. */
  function Unpack(e: Endian, k: IntKind, b: seq<byte>): (r: Result<int, CodecError>)
    ensures r.Ok? <==> |b| == Width(k)
    ensures r.Ok? ==> InRange(k, r.value)
    ensures r.Err? ==> r.error == BufferSizeMismatch(Width(k), |b|)
  {
    if |b| != Width(k) then Err(BufferSizeMismatch(Width(k), |b|))
    else Ok(FromUnsigned(k, DecodeUnsigned(e, b)))
  }

  /** `pack` of the one-byte `?` format: 1 for true, 0 for false. */
  function PackBool(v: bool): (r: seq<byte>)
    ensures |r| == 1
    ensures UnpackBool(r) == Ok(v)
  {
    [if v then 1 else 0]
  }

  /** `unpack` of the one-byte `?` format: any nonzero byte reads as true. */
  function UnpackBool(b: seq<byte>): (r: Result<bool, CodecError>)
    ensures r.Ok? <==> |b| == 1
    ensures r.Ok? ==> (r.value <==> b[0] != 0)
    ensures r.Err? ==> r.error == BufferSizeMismatch(1, |b|)
  {
    if |b| != 1 then Err(BufferSizeMismatch(1, |b|)) else Ok(b[0] != 0)
  }

  /** `a * c <= m * c` for `0 <= a <= m` and `c >= 0`. */
  lemma MulBound(a: nat, m: nat, c: nat)
    requires a <= m
    ensures a * c <= m * c
  {
  }
}
