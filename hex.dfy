/** Base16 text for byte fields: `binascii.hexlify` renders bytes as lowercase
    hexadecimal digits, two per byte, and `binascii.unhexlify` turns a string of
    hexadecimal digits of either case back into bytes, rejecting a string whose
    UTF-8 encoding has an odd length or that holds a non-hex character. */
module Hex {
  import opened Types

  /** A character `unhexlify` accepts. */
  predicate IsHexDigit(c: char)
  {
    '0' <= c <= '9' || 'a' <= c <= 'f' || 'A' <= c <= 'F'
  }

  /** A character `hexlify` may produce. */
  predicate IsLowerHexDigit(c: char)
  {
    '0' <= c <= '9' || 'a' <= c <= 'f'
  }

  /** The value 0..15 of a hexadecimal digit of either case. */
  function DigitValue(c: char): (d: nat)
    requires IsHexDigit(c)
    ensures d < 16
  {
    if c <= '9' then c as int - '0' as int
    else if c >= 'a' then c as int - 'a' as int + 10
    else c as int - 'A' as int + 10
  }

  /** The lowercase digit for the value `d`. */
  function HexChar(d: nat): (c: char)
    requires d < 16
    ensures IsLowerHexDigit(c) && DigitValue(c) == d
  {
    if d < 10 then ('0' as int + d) as char else ('a' as int + d - 10) as char
  }

  /** A hexadecimal digit in lowercase. */
  function ToLower(c: char): char
  {
    if 'A' <= c <= 'F' then (c as int + 32) as char else c
  }

  /** `s` with its uppercase hexadecimal letters lowered. */
  function Lowered(s: string): (r: string)
    ensures |r| == |s|
  {
    if s == [] then [] else [ToLower(s[0])] + Lowered(s[1..])
  }

  /** `binascii.hexlify(b).decode()`: two lowercase digits per byte, high nibble first. */
  function Hexlify(b: seq<byte>): (s: string)
    ensures |s| == 2 * |b|
    ensures forall i :: 0 <= i < |s| ==> IsLowerHexDigit(s[i])
  {
    if b == [] then "" else [HexChar(b[0] / 16), HexChar(b[0] % 16)] + Hexlify(b[1..])
  }

  /** Number of bytes `str.encode()` produces for `s` in UTF-8. */
  function Utf8Length(s: string): (n: nat)
    ensures |s| <= n <= 4 * |s|
  {
    if s == [] then 0
    else
      var c := s[0] as int;
      (if c < 0x80 then 1 else if c < 0x800 then 2 else if c < 0x10000 then 3 else 4)
      + Utf8Length(s[1..])
  }

  /** `binascii.unhexlify(s.encode())`: the odd-length check comes first and is
      made on the encoded length; then every pair of digits becomes one byte. */
  function Unhexlify(s: string): (r: Result<seq<byte>, CodecError>)
    ensures r.Ok? ==> 2 * |r.value| == |s|
    ensures r.Err? ==> r.error == OddLengthHex || r.error == NonHexDigit
    ensures Utf8Length(s) % 2 == 1 ==> r == Err(OddLengthHex)
  {
    if Utf8Length(s) % 2 == 1 then Err(OddLengthHex) else DecodePairs(s)
  }

  /** Pairs of hexadecimal digits to bytes, high nibble first. */
  function DecodePairs(s: string): (r: Result<seq<byte>, CodecError>)
    ensures r.Ok? ==> 2 * |r.value| == |s|
    ensures r.Err? ==> r.error == NonHexDigit
  {
    if s == [] then Ok([])
    else if |s| == 1 || !IsHexDigit(s[0]) || !IsHexDigit(s[1]) then Err(NonHexDigit)
    else match DecodePairs(s[2..])
      case Err(e) => Err(e)
      case Ok(rest) => Ok([16 * DigitValue(s[0]) + DigitValue(s[1])] + rest)
  }

  /** A string of ASCII characters encodes to one byte per character. */
  lemma {:induction false} HexDigitsUtf8Length(s: string)
    requires forall i :: 0 <= i < |s| ==> IsHexDigit(s[i])
    ensures Utf8Length(s) == |s|
  {
    if s != [] {
      HexDigitsUtf8Length(s[1..]);
    }
  }

  /** Pairs decode exactly when there is an even number of hexadecimal digits. */
  lemma {:induction false} DecodePairsAccepts(s: string)
    ensures DecodePairs(s).Ok? <==> |s| % 2 == 0 && forall i :: 0 <= i < |s| ==> IsHexDigit(s[i])
  {
    if |s| >= 2 {
      DecodePairsAccepts(s[2..]);
      assert forall i :: 2 <= i < |s| ==> s[i] == s[2..][i - 2];
    }
  }

  /** `unhexlify` succeeds exactly on strings of an even number of hexadecimal
      digits of either case; anything else is a decode error. */
  lemma UnhexlifyAccepts(s: string)
    ensures Unhexlify(s).Ok? <==> |s| % 2 == 0 && forall i :: 0 <= i < |s| ==> IsHexDigit(s[i])
  {
    DecodePairsAccepts(s);
    if forall i :: 0 <= i < |s| ==> IsHexDigit(s[i]) {
      HexDigitsUtf8Length(s);
    }
  }

  /** Decoding the hexadecimal rendering of `b` gives `b` back. */
  lemma {:induction false} UnhexlifyHexlify(b: seq<byte>)
    ensures Unhexlify(Hexlify(b)) == Ok(b)
  {
    var s := Hexlify(b);
    assert forall i :: 0 <= i < |s| ==> IsHexDigit(s[i]);
    HexDigitsUtf8Length(s);
    assert Utf8Length(s) % 2 == 0;
    DecodePairsHexlify(b);
  }

  lemma {:induction false} DecodePairsHexlify(b: seq<byte>)
    ensures DecodePairs(Hexlify(b)) == Ok(b)
  {
    if b != [] {
      var s := Hexlify(b);
      assert s[0] == HexChar(b[0] / 16) && s[1] == HexChar(b[0] % 16);
      assert s[2..] == Hexlify(b[1..]);
      DecodePairsHexlify(b[1..]);
      assert 16 * DigitValue(s[0]) + DigitValue(s[1]) == b[0];
      assert [b[0]] + b[1..] == b;
    }
  }

  /** The value of a digit, rendered again, is that digit in lowercase. */
  lemma HexCharOfDigit(c: char)
    requires IsHexDigit(c)
    ensures HexChar(DigitValue(c)) == ToLower(c)
  {
  }

  /** Rendering what `unhexlify` decoded gives the input string in lowercase:
      the two functions are inverse up to the case of the letters. */
  lemma {:induction false} HexlifyUnhexlify(s: string)
    requires Unhexlify(s).Ok?
    ensures Hexlify(Unhexlify(s).value) == Lowered(s)
  {
    DecodePairsLowered(s);
  }

  lemma {:induction false} DecodePairsLowered(s: string)
    requires DecodePairs(s).Ok?
    ensures Hexlify(DecodePairs(s).value) == Lowered(s)
  {
    if s != [] {
      var rest := DecodePairs(s[2..]).value;
      var v := 16 * DigitValue(s[0]) + DigitValue(s[1]);
      assert DecodePairs(s).value == [v] + rest;
      SplitPair(DigitValue(s[0]), DigitValue(s[1]));
      HexCharOfDigit(s[0]);
      HexCharOfDigit(s[1]);
      DecodePairsLowered(s[2..]);
      assert ([v] + rest)[1..] == rest;
      assert Lowered(s) == [ToLower(s[0])] + ([ToLower(s[1])] + Lowered(s[2..]));
    }
  }

  /** The byte `16 * hi + lo` splits back into its two digits. */
  lemma SplitPair(hi: nat, lo: nat)
    requires hi < 16 && lo < 16
    ensures (16 * hi + lo) / 16 == hi && (16 * hi + lo) % 16 == lo
  {
  }

  /** The example the tests pin: bytes `00 01 FF` render as `"0001ff"`. */
  lemma HexExample()
    ensures Hexlify([0x00, 0x01, 0xFF]) == "0001ff"
    ensures Unhexlify("0001ff") == Ok([0x00, 0x01, 0xFF])
  {
    UnhexlifyHexlify([0x00, 0x01, 0xFF]);
  }
}
