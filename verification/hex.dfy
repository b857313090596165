/** Base16 decoding of the application's public key (section 8 of RFC 4648),
    with the behaviour of the `hex` crate's `FromHex` for fixed-size byte
    arrays: the length is checked before any digit, digits are read in pairs,
    high nibble first, and upper- and lower-case letters are both accepted. */
module Hex {
  import opened Bytes
  import opened Wrappers
  import Utf8

  /** Why a hex string was refused. */
  datatype FromHexError =
    | InvalidHexCharacter(c: char, index: nat)
    | OddLength
    | InvalidStringLength

  /** Length in bytes of an Ed25519 public key (section 5.1.5 of RFC 8032). */
  const PublicKeyLength: nat := 32

  type PublicKeyBytes = b: seq<byte> | |b| == PublicKeyLength witness seq(32, _ => 0)

  /** `0`-`9`, `a`-`f` or `A`-`F`. */
  predicate IsHexDigit(x: byte) {
    0x30 <= x <= 0x39 || 0x61 <= x <= 0x66 || 0x41 <= x <= 0x46
  }

  /** The value of a hex digit. */
  function DigitValue(x: byte): (v: nat)
    requires IsHexDigit(x)
    ensures v < 16
  {
    if x <= 0x39 then x - 0x30
    else if x >= 0x61 then x - 0x61 + 10
    else x - 0x41 + 10
  }

  /** The digit at position `index` of the input, or the error naming it. */
  function Digit(x: byte, index: nat): (r: Result<nat, FromHexError>)
    ensures r.Ok? <==> IsHexDigit(x)
    ensures r.Ok? ==> r.value < 16
    ensures r.Err? ==> r.error == InvalidHexCharacter(x as char, index)
  {
    if IsHexDigit(x) then Ok(DigitValue(x)) else Err(InvalidHexCharacter(x as char, index))
  }

  predicate AllHexDigits(data: seq<byte>) {
    forall i :: 0 <= i < |data| ==> IsHexDigit(data[i])
  }

  /** Decodes digit pairs; `offset` is the position of `data[0]` in the whole
      input, so that an error names the position in the input. */
  function DecodePairs(data: seq<byte>, offset: nat): (r: Result<seq<byte>, FromHexError>)
    requires |data| % 2 == 0
    ensures r.Ok? <==> AllHexDigits(data)
    ensures r.Ok? ==> |r.value| == |data| / 2
    ensures r.Ok? ==> forall k :: 0 <= k < |r.value| ==>
      r.value[k] == DigitValue(data[2 * k]) * 16 + DigitValue(data[2 * k + 1])
    ensures r.Err? ==> r.error.InvalidHexCharacter?
    ensures r.Err? ==> offset <= r.error.index < offset + |data|
    ensures r.Err? ==> !IsHexDigit(data[r.error.index - offset])
    ensures r.Err? ==> r.error.c == data[r.error.index - offset] as char
    ensures r.Err? ==> AllHexDigits(data[..r.error.index - offset])
    decreases |data|
  {
    if |data| == 0 then Ok([])
    else
      var high :- Digit(data[0], offset);
      var low :- Digit(data[1], offset + 1);
      var rest :- DecodePairs(data[2..], offset + 2);
      Ok([high * 16 + low] + rest)
  }

  /** `<[u8; n] as FromHex>::from_hex`: odd length first, then a length that
      does not give exactly `n` bytes, then the first invalid digit. */
  function DecodeArray(data: seq<byte>, n: nat): (r: Result<seq<byte>, FromHexError>)
    ensures r.Ok? ==> |r.value| == n
    ensures r == Err(OddLength) <==> |data| % 2 != 0
    ensures r == Err(InvalidStringLength) <==> |data| % 2 == 0 && |data| != 2 * n
    ensures r.Ok? <==> |data| == 2 * n && AllHexDigits(data)
  {
    if |data| % 2 != 0 then Err(OddLength)
    else if |data| / 2 != n then Err(InvalidStringLength)
    else DecodePairs(data, 0)
  }

  /** The public key string decoded to 32 bytes; the decoder reads the bytes
      of the string's UTF-8 form. */
  function DecodePublicKey(key: string): (r: Result<PublicKeyBytes, FromHexError>)
    ensures r.Ok? <==> DecodeArray(Utf8.Encode(key), PublicKeyLength).Ok?
    ensures r.Ok? ==> r.value == DecodeArray(Utf8.Encode(key), PublicKeyLength).value
    ensures r.Err? ==> r.error == DecodeArray(Utf8.Encode(key), PublicKeyLength).error
  {
    match DecodeArray(Utf8.Encode(key), PublicKeyLength)
    case Ok(bytes) => Ok(bytes)
    case Err(e) => Err(e)
  }

  /** A hex digit as a character. */
  predicate IsHexChar(c: char) {
    '0' <= c <= '9' || 'a' <= c <= 'f' || 'A' <= c <= 'F'
  }

  /** Lower-case hex digit for a value below 16. */
  function HexDigit(v: nat): (x: byte)
    requires v < 16
    ensures IsHexDigit(x) && DigitValue(x) == v
  {
    if v < 10 then 0x30 + v else 0x61 + v - 10
  }

  /** Lower-case Base16 encoding, two digits per byte, high nibble first. */
  function Encode(b: seq<byte>): (r: seq<byte>)
    ensures |r| == 2 * |b|
  {
    if |b| == 0 then [] else [HexDigit(b[0] / 16), HexDigit(b[0] % 16)] + Encode(b[1..])
  }

  /** Upper-case hex letters folded to lower case; other bytes unchanged. */
  function LowerDigits(data: seq<byte>): (r: seq<byte>)
    ensures |r| == |data|
  {
    if |data| == 0 then []
    else [if 0x41 <= data[0] <= 0x46 then data[0] + 0x20 else data[0]] + LowerDigits(data[1..])
  }

  /** One step of `DecodePairs` on a well-formed pair. */
  lemma DecodePairsStep(high: byte, low: byte, rest: seq<byte>, offset: nat)
    requires IsHexDigit(high) && IsHexDigit(low)
    requires |rest| % 2 == 0 && DecodePairs(rest, offset + 2).Ok?
    ensures DecodePairs([high, low] + rest, offset)
         == Ok([DigitValue(high) * 16 + DigitValue(low)] + DecodePairs(rest, offset + 2).value)
  {
    var d := [high, low] + rest;
    assert d[0] == high && d[1] == low && d[2..] == rest;
  }

  /** The two digits `Encode` writes for the byte at position `k`. */
  lemma {:induction false} EncodeAt(b: seq<byte>, k: nat)
    requires k < |b|
    ensures Encode(b)[2 * k] == HexDigit(b[k] / 16)
    ensures Encode(b)[2 * k + 1] == HexDigit(b[k] % 16)
    decreases k
  {
    if k > 0 {
      EncodeAt(b[1..], k - 1);
    }
  }

  /** Decoding the lower-case encoding of any bytes gives them back. */
  lemma DecodePairsOfEncoded(b: seq<byte>, offset: nat)
    ensures DecodePairs(Encode(b), offset) == Ok(b)
  {
    var e := Encode(b);
    assert AllHexDigits(e) by {
      forall i | 0 <= i < |e| ensures IsHexDigit(e[i]) {
        EncodeAt(b, i / 2);
        assert i == 2 * (i / 2) || i == 2 * (i / 2) + 1;
      }
    }
    var r := DecodePairs(e, offset);
    assert r.Ok? && |r.value| == |b|;
    forall k | 0 <= k < |b| ensures r.value[k] == b[k] {
      EncodeAt(b, k);
      var high, low := b[k] / 16, b[k] % 16;
      assert DigitValue(e[2 * k]) == high && DigitValue(e[2 * k + 1]) == low;
      assert r.value[k] == high * 16 + low;
    }
    assert r.value == b;
  }

  /** Every `n` bytes survive encoding and decoding as an `n`-byte array. */
  lemma DecodeArrayOfEncoded(b: seq<byte>)
    ensures DecodeArray(Encode(b), |b|) == Ok(b)
  {
    DecodePairsOfEncoded(b, 0);
  }

  /** A digit written back from its value is the digit in lower case. */
  lemma HexDigitOfValue(x: byte)
    requires IsHexDigit(x)
    ensures HexDigit(DigitValue(x)) == LowerDigits([x])[0]
  {
  }

  /** Splitting a byte built from two digit values recovers them. */
  lemma SplitByte(high: nat, low: nat)
    requires high < 16 && low < 16
    ensures (high * 16 + low) / 16 == high && (high * 16 + low) % 16 == low
  {
  }

  /** `Encode` on a leading byte. */
  lemma EncodeCons(x: byte, rest: seq<byte>)
    ensures Encode([x] + rest) == [HexDigit(x / 16), HexDigit(x % 16)] + Encode(rest)
  {
    assert ([x] + rest)[1..] == rest;
  }

  /** `LowerDigits` on a leading pair. */
  lemma LowerDigitsPair(high: byte, low: byte, rest: seq<byte>)
    ensures LowerDigits([high, low] + rest) == LowerDigits([high]) + LowerDigits([low]) + LowerDigits(rest)
  {
    var d := [high, low] + rest;
    assert d[1..] == [low] + rest;
    assert d[1..][1..] == rest;
  }

  /** Decoding is the inverse of encoding up to the case of the letters: the
      accepted input is the encoding of the result, case folded. */
  lemma {:induction false} EncodeOfDecodedPairs(data: seq<byte>, offset: nat)
    requires |data| % 2 == 0 && DecodePairs(data, offset).Ok?
    ensures Encode(DecodePairs(data, offset).value) == LowerDigits(data)
    decreases |data|
  {
    if |data| > 0 {
      var high, low, rest := data[0], data[1], data[2..];
      assert data == [high, low] + rest;
      assert IsHexDigit(high) && IsHexDigit(low);
      assert AllHexDigits(rest) by {
        forall i | 0 <= i < |rest| ensures IsHexDigit(rest[i]) {
          assert rest[i] == data[i + 2];
        }
      }
      var tail := DecodePairs(rest, offset + 2).value;
      DecodePairsStep(high, low, rest, offset);
      EncodeOfDecodedPairs(rest, offset + 2);
      var x := DigitValue(high) * 16 + DigitValue(low);
      SplitByte(DigitValue(high), DigitValue(low));
      EncodeCons(x, tail);
      HexDigitOfValue(high);
      HexDigitOfValue(low);
      LowerDigitsPair(high, low, rest);
    }
  }

  /** Decoding an `n`-byte array is the inverse of encoding up to letter case. */
  lemma EncodeOfDecodedArray(data: seq<byte>, n: nat)
    requires DecodeArray(data, n).Ok?
    ensures Encode(DecodeArray(data, n).value) == LowerDigits(data)
  {
    EncodeOfDecodedPairs(data, 0);
  }

  /** The public key is accepted exactly when it is 64 hex digits. */
  lemma PublicKeyAccepted(key: string)
    ensures DecodePublicKey(key).Ok? <==> |key| == 2 * PublicKeyLength && forall i :: 0 <= i < |key| ==> IsHexChar(key[i])
  {
    var e := Utf8.Encode(key);
    if DecodePublicKey(key).Ok? {
      assert forall i :: 0 <= i < |e| ==> IsAscii(e[i]) by {
        forall i | 0 <= i < |e| ensures IsAscii(e[i]) {
          assert IsHexDigit(e[i]);
        }
      }
      Utf8.AsciiEncoding(key);
      Utf8.EncodeAscii(key);
      forall i | 0 <= i < |key| ensures IsHexChar(key[i]) {
        assert IsHexDigit(e[i]);
      }
    }
    if |key| == 2 * PublicKeyLength && forall i :: 0 <= i < |key| ==> IsHexChar(key[i]) {
      Utf8.EncodeAscii(key);
      assert AllHexDigits(e);
    }
  }
}
