/** Framing of the variable-size fields: the fixed-length packing
    `write_length` applies (`struct.pack` with an `Ns` format), the repetition
    `fill` writes, and the cut at the first NUL that `peek_text`/`read_text`
    apply to decoded text. Character encodings are the caller's: they enter as
    function parameters. */
module Framing {
  import opened Types
  import opened Cursor

  /** `struct.pack('<n>s', data)`: exactly `n` bytes, the first `n` bytes of
      `data` when it is longer and `data` followed by zero bytes when it is
      shorter. */
  function FixedLength(data: seq<byte>, n: nat): (r: seq<byte>)
    ensures |r| == n
    ensures forall i :: 0 <= i < n ==> r[i] == if i < |data| then data[i] else 0
  {
    if |data| >= n then data[..n] else data + Zeros(n - |data|)
  }

  /** The bytes `write_length(data, length)` hands to `write`: `data` itself
      when no length is given, else `data` packed to exactly `length` bytes; a
      negative length is not a valid `struct` format and fails. */
  function Frame(data: seq<byte>, length: Option<int>): (r: Result<seq<byte>, CodecError>)
    ensures r.Err? <==> length.Some? && length.value < 0
    ensures length.None? ==> r == Ok(data)
    ensures length.Some? && length.value >= 0 ==> r == Ok(FixedLength(data, length.value))
    ensures r.Ok? && length.Some? ==> |r.value| == length.value
    ensures r.Ok? && length.Some? ==> r.value[..Min(|data|, length.value)] == data[..Min(|data|, length.value)]
  {
    match length
    case None => Ok(data)
    case Some(n) => if n < 0 then Err(NegativeFieldLength(n)) else Ok(FixedLength(data, n))
  }

  /** The smaller of `a` and `b`. */
  function Min(a: nat, b: nat): nat
  {
    if a < b then a else b
  }

  /** `value * length` on bytes: `value` repeated `length` times, nothing when
      `length` is zero or negative. */
  function Repeat(value: seq<byte>, length: int): (r: seq<byte>)
    ensures length <= 0 ==> r == []
    ensures length > 0 ==> |r| == |value| * length
    decreases length
  {
    if length <= 0 then []
    else
      var rest := Repeat(value, length - 1);
      MulSucc(|value|, length - 1);
      value + rest
  }

  /** A repetition begins with `value` and repeats with period `|value|`: it
      cycles through `value`. */
  lemma {:induction false} RepeatPeriodic(value: seq<byte>, length: int)
    ensures forall i :: 0 <= i < |Repeat(value, length)| && i < |value| ==> Repeat(value, length)[i] == value[i]
    ensures forall i :: |value| <= i < |Repeat(value, length)| ==>
      Repeat(value, length)[i] == Repeat(value, length)[i - |value|]
    decreases length
  {
    if length > 0 {
      var rest := Repeat(value, length - 1);
      RepeatPeriodic(value, length - 1);
      PeriodStep(value, rest);
      assert Repeat(value, length) == value + rest;
    }
  }

  /** One more copy of `value` in front of a repetition of `value` keeps the
      period. */
  lemma PeriodStep(value: seq<byte>, rest: seq<byte>)
    requires forall i :: 0 <= i < |rest| && i < |value| ==> rest[i] == value[i]
    requires forall i :: |value| <= i < |rest| ==> rest[i] == rest[i - |value|]
    ensures forall i :: |value| <= i < |value + rest| ==> (value + rest)[i] == (value + rest)[i - |value|]
  {
    var m, r := |value|, value + rest;
    forall i | m <= i < |r|
      ensures r[i] == r[i - m]
    {
      if i - m >= m {
        assert r[i - m] == rest[i - 2 * m];
      }
    }
  }

  /** `m + m * n == m * (n + 1)`. */
  lemma MulSucc(m: nat, n: nat)
    ensures m + m * n == m * (n + 1)
  {
  }

  /** Repeating `a` times and then `b` times is repeating `a + b` times. */
  lemma {:induction false} RepeatAdd(value: seq<byte>, a: nat, b: nat)
    ensures Repeat(value, a + b) == Repeat(value, a) + Repeat(value, b)
    decreases a
  {
    if a > 0 {
      var front, back := Repeat(value, a - 1), Repeat(value, b);
      RepeatAdd(value, a - 1, b);
      assert Repeat(value, a + b) == value + Repeat(value, (a - 1) + b);
      assert value + (front + back) == (value + front) + back;
    }
  }

  /** Repeating one byte gives a run of that byte; the default fill value, a
      single zero byte, gives zeros. */
  lemma {:induction false} RepeatOneByte(x: byte, length: nat)
    ensures |Repeat([x], length)| == length
    ensures forall i :: 0 <= i < length ==> Repeat([x], length)[i] == x
    ensures x == 0 ==> Repeat([x], length) == Zeros(length)
    decreases length
  {
    if length > 0 {
      RepeatOneByte(x, length - 1);
      assert Repeat([x], length) == [x] + Repeat([x], length - 1);
    }
  }

  /** The text before the first NUL character, or all of it when there is none. */
  function TruncateAtNul(s: string): (r: string)
    ensures |r| <= |s| && r == s[..|r|]
    ensures '\0' !in r
    ensures |r| < |s| ==> s[|r|] == '\0'
  {
    if s == [] || s[0] == '\0' then [] else [s[0]] + TruncateAtNul(s[1..])
  }

  /** What `peek_text`/`read_text` return for the raw field bytes: the caller's
      decoder (encoding plus error policy) fails or yields text, which is then
      cut at its first NUL. */
  function DecodeText(raw: seq<byte>, decode: seq<byte> -> Option<string>): (r: Result<string, CodecError>)
    ensures r.Ok? <==> decode(raw).Some?
    ensures r.Ok? ==> r.value == TruncateAtNul(decode(raw).value)
    ensures r.Err? ==> r.error == TextDecodeFailed
  {
    match decode(raw)
    case None => Err(TextDecodeFailed)
    case Some(text) => Ok(TruncateAtNul(text))
  }

  /** The bytes `write_text` hands to `write_length`: the text encoded by the
      caller's encoder, or a failure when it cannot be encoded. */
  function EncodeText(text: string, encode: string -> Option<seq<byte>>): (r: Result<seq<byte>, CodecError>)
    ensures r.Ok? <==> encode(text).Some?
    ensures r.Ok? ==> r.value == encode(text).value
    ensures r.Err? ==> r.error == TextEncodeFailed
  {
    match encode(text)
    case None => Err(TextEncodeFailed)
    case Some(raw) => Ok(raw)
  }

  /** A fixed-length field is idempotent and leaves a payload of exactly the
      field's length unchanged. */
  lemma FixedLengthStable(data: seq<byte>, n: nat)
    ensures FixedLength(FixedLength(data, n), n) == FixedLength(data, n)
    ensures FixedLength(data, |data|) == data
  {
    assert forall i :: 0 <= i < n ==> FixedLength(FixedLength(data, n), n)[i] == FixedLength(data, n)[i];
    assert forall i :: 0 <= i < |data| ==> FixedLength(data, |data|)[i] == data[i];
  }

  /** A payload that fits survives the field: its own bytes come first and only
      zeros follow; a payload that does not fit keeps its first `n` bytes. */
  lemma FixedLengthKeepsPayload(data: seq<byte>, n: nat)
    ensures |data| <= n ==> FixedLength(data, n) == data + Zeros(n - |data|)
    ensures |data| >= n ==> FixedLength(data, n) == data[..n]
  {
    var r := FixedLength(data, n);
    if |data| <= n {
      assert forall i :: 0 <= i < n ==> r[i] == (data + Zeros(n - |data|))[i];
    }
  }

  /** The framing cases the tests pin: the hex payload `00 01 FF` framed to one
      byte is `00`, and two bytes of text framed to four are zero-padded. */
  lemma FramingExamples()
    ensures Frame([0x00, 0x01, 0xFF], Some(1)) == Ok([0x00])
    ensures Frame([0x61, 0x62], Some(4)) == Ok([0x61, 0x62, 0x00, 0x00])
    ensures Frame([0x00, 0x01, 0xFF], None) == Ok([0x00, 0x01, 0xFF])
    ensures Frame([0x00], Some(-1)).Err?
  {
    assert [0x00, 0x01, 0xFF][..1] == [0x00];
    assert Zeros(2) == [0x00, 0x00];
    var ab: seq<byte> := [0x61, 0x62];
    assert FixedLength(ab, 4) == ab + Zeros(2);
    assert ab + Zeros(2) == [0x61, 0x62, 0x00, 0x00];
  }

  /** A NUL-padded text field reads back as its text: cutting `t + NUL + pad`
      at the first NUL gives `t` whenever `t` holds no NUL, and text without a
      NUL is kept whole. */
  lemma {:induction false} NulPaddedText(t: string, pad: string)
    requires '\0' !in t
    ensures TruncateAtNul(t + ['\0'] + pad) == t
    ensures TruncateAtNul(t) == t
  {
    if t != [] {
      assert (t + ['\0'] + pad)[1..] == t[1..] + ['\0'] + pad;
      NulPaddedText(t[1..], pad);
    }
  }

  /** The test's case: `"ab\0cd"` reads as `"ab"`. */
  lemma TruncateExample()
    ensures TruncateAtNul("ab\0cd") == "ab"
  {
    NulPaddedText("ab", "cd");
    assert "ab\0cd" == "ab" + ['\0'] + "cd";
  }
}
