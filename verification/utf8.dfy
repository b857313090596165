/** UTF-8 as defined in RFC 3629: the encoding Rust's `str::as_bytes` exposes
    and the validation `str::from_utf8` performs. Dafny's `char` is a Unicode
    scalar value, the same set as Rust's `char`. */
module Utf8 {
  import opened Bytes
  import opened Wrappers

  /** A continuation byte, `10xxxxxx`. */
  predicate IsContinuation(x: byte) {
    0x80 <= x <= 0xBF
  }

  /** The bytes encoding one scalar value (section 3 of RFC 3629). */
  function EncodeChar(c: char): (r: seq<byte>)
    ensures 1 <= |r| <= 4
    ensures |r| == 1 <==> c as int < 0x80
    ensures |r| == 1 ==> r[0] == c as int
    ensures |r| > 1 ==> !IsAscii(r[0]) && forall i :: 1 <= i < |r| ==> IsContinuation(r[i])
  {
    var n := c as int;
    // n split into 6-bit groups, least significant first
    var g0, n1 := n % 0x40, n / 0x40;
    var g1, n2 := n1 % 0x40, n1 / 0x40;
    var g2, n3 := n2 % 0x40, n2 / 0x40;
    if n < 0x80 then [n]
    else if n < 0x800 then [0xC0 + n1, 0x80 + g0]
    else if n < 0x1_0000 then [0xE0 + n2, 0x80 + g1, 0x80 + g0]
    else [0xF0 + n3, 0x80 + g2, 0x80 + g1, 0x80 + g0]
  }

  /** The UTF-8 form of a string. */
  function Encode(s: string): (r: seq<byte>)
    ensures |r| >= |s|
  {
    if |s| == 0 then [] else EncodeChar(s[0]) + Encode(s[1..])
  }

  /** Whether `b1` may follow the lead byte `b0` of a three-byte sequence:
      the table of section 4 of RFC 3629 excludes overlong forms and surrogates. */
  predicate SecondOfThree(b0: byte, b1: byte) {
    if b0 == 0xE0 then 0xA0 <= b1 <= 0xBF
    else if b0 == 0xED then 0x80 <= b1 <= 0x9F
    else IsContinuation(b1)
  }

  /** Whether `b1` may follow the lead byte `b0` of a four-byte sequence:
      overlong forms and values beyond U+10FFFF are excluded. */
  predicate SecondOfFour(b0: byte, b1: byte) {
    if b0 == 0xF0 then 0x90 <= b1 <= 0xBF
    else if b0 == 0xF4 then 0x80 <= b1 <= 0x8F
    else IsContinuation(b1)
  }

  /** Decodes the scalar value at the front of `b` with the number of bytes it
      occupies, or `None` when `b` does not start with a well-formed sequence. */
  function DecodeFirst(b: seq<byte>): (r: Option<(char, nat)>)
    requires |b| > 0
    ensures r.Some? ==> 1 <= r.value.1 <= |b| && r.value.1 <= 4
  {
    var b0: int := b[0];
    if b0 < 0x80 then
      Some((b0 as char, 1))
    else if 0xC2 <= b0 <= 0xDF then
      if |b| >= 2 && IsContinuation(b[1]) then
        Some((((b0 - 0xC0) * 0x40 + (b[1] as int - 0x80)) as char, 2))
      else None
    else if 0xE0 <= b0 <= 0xEF then
      if |b| >= 3 && SecondOfThree(b[0], b[1]) && IsContinuation(b[2]) then
        Some((((b0 - 0xE0) * 0x1000 + (b[1] as int - 0x80) * 0x40 + (b[2] as int - 0x80)) as char, 3))
      else None
    else if 0xF0 <= b0 <= 0xF4 then
      if |b| >= 4 && SecondOfFour(b[0], b[1]) && IsContinuation(b[2]) && IsContinuation(b[3]) then
        Some((((b0 - 0xF0) * 0x4_0000 + (b[1] as int - 0x80) * 0x1000 + (b[2] as int - 0x80) * 0x40 + (b[3] as int - 0x80)) as char, 4))
      else None
    else None
  }

  /** Rust's `str::from_utf8`: the text `b` encodes, or `None` when `b` is not
      well-formed UTF-8. */
  function Decode(b: seq<byte>): (r: Option<string>)
    decreases |b|
  {
    if |b| == 0 then Some([])
    else match DecodeFirst(b)
      case None => None
      case Some((c, w)) =>
        match Decode(b[w..])
        case None => None
        case Some(rest) => Some([c] + rest)
  }

  /** Encoding a scalar value and decoding the front of the result gives the
      value back, whatever follows it. */
  lemma DecodeFirstOfEncoded(c: char, rest: seq<byte>)
    ensures DecodeFirst(EncodeChar(c) + rest) == Some((c, |EncodeChar(c)|))
  {
    var n := c as int;
    var b := EncodeChar(c) + rest;
    var g0, n1 := n % 0x40, n / 0x40;
    var g1, n2 := n1 % 0x40, n1 / 0x40;
    var g2, n3 := n2 % 0x40, n2 / 0x40;
    if n < 0x80 {
    } else if n < 0x800 {
      assert b[0] == 0xC0 + n1 && b[1] == 0x80 + g0;
    } else if n < 0x1_0000 {
      assert b[0] == 0xE0 + n2 && b[1] == 0x80 + g1 && b[2] == 0x80 + g0;
      assert n == n2 * 0x1000 + g1 * 0x40 + g0;
    } else {
      assert b[0] == 0xF0 + n3 && b[1] == 0x80 + g2 && b[2] == 0x80 + g1 && b[3] == 0x80 + g0;
      assert n == n3 * 0x4_0000 + g2 * 0x1000 + g1 * 0x40 + g0;
    }
  }

  /** A well-formed sequence at the front of `b` is exactly the encoding of the
      value decoded from it. */
  lemma EncodeOfDecodedFirst(b: seq<byte>)
    requires |b| > 0 && DecodeFirst(b).Some?
    ensures EncodeChar(DecodeFirst(b).value.0) == b[..DecodeFirst(b).value.1]
  {
    var c := DecodeFirst(b).value.0;
    var n := c as int;
    var b0: int := b[0];
    if b0 < 0x80 {
    } else if b0 <= 0xDF {
      var b1: int := b[1];
      assert n == (b0 - 0xC0) * 0x40 + (b1 - 0x80);
      assert n / 0x40 == b0 - 0xC0 && n % 0x40 == b1 - 0x80;
    } else if b0 <= 0xEF {
      var b1: int, b2: int := b[1], b[2];
      var n1 := (b0 - 0xE0) * 0x40 + (b1 - 0x80);
      assert n == n1 * 0x40 + (b2 - 0x80);
      assert n / 0x40 == n1 && n % 0x40 == b2 - 0x80;
      assert n1 / 0x40 == b0 - 0xE0 && n1 % 0x40 == b1 - 0x80;
    } else {
      var b1: int, b2: int, b3: int := b[1], b[2], b[3];
      var n2 := (b0 - 0xF0) * 0x40 + (b1 - 0x80);
      var n1 := n2 * 0x40 + (b2 - 0x80);
      assert n == n1 * 0x40 + (b3 - 0x80);
      assert n / 0x40 == n1 && n % 0x40 == b3 - 0x80;
      assert n1 / 0x40 == n2 && n1 % 0x40 == b2 - 0x80;
      assert n2 / 0x40 == b0 - 0xF0 && n2 % 0x40 == b1 - 0x80;
    }
  }

  /** `str::from_utf8` accepts every `str::as_bytes` and returns the same text. */
  lemma {:induction false} DecodeEncode(s: string)
    ensures Decode(Encode(s)) == Some(s)
  {
    if |s| > 0 {
      var e := EncodeChar(s[0]);
      DecodeFirstOfEncoded(s[0], Encode(s[1..]));
      assert (e + Encode(s[1..]))[|e|..] == Encode(s[1..]);
      DecodeEncode(s[1..]);
      assert [s[0]] + s[1..] == s;
    }
  }

  /** Whatever `str::from_utf8` accepts, it accepts as the encoding of the text
      it returns: decoding is the exact inverse of encoding. */
  lemma {:induction false} EncodeDecode(b: seq<byte>)
    requires Decode(b).Some?
    ensures Encode(Decode(b).value) == b
    decreases |b|
  {
    if |b| > 0 {
      var c, w := DecodeFirst(b).value.0, DecodeFirst(b).value.1;
      EncodeOfDecodedFirst(b);
      EncodeDecode(b[w..]);
      var s := Decode(b).value;
      assert s[0] == c && s[1..] == Decode(b[w..]).value;
      assert b[..w] + b[w..] == b;
    }
  }

  /** Distinct strings have distinct UTF-8 forms. */
  lemma EncodeInjective(s: string, t: string)
    requires Encode(s) == Encode(t)
    ensures s == t
  {
    DecodeEncode(s);
    DecodeEncode(t);
  }

  /** Encoding distributes over concatenation: a string is encoded one
      character at a time, with nothing between the characters. */
  lemma {:induction false} EncodeConcat(s: string, t: string)
    ensures Encode(s + t) == Encode(s) + Encode(t)
    decreases |s|
  {
    if |s| > 0 {
      assert (s + t)[0] == s[0] && (s + t)[1..] == s[1..] + t;
      EncodeConcat(s[1..], t);
    } else {
      assert s + t == t;
    }
  }

  /** `EncodeConcat` followed by more bytes. */
  lemma EncodeConcatThen(s: string, t: string, rest: seq<byte>)
    ensures Encode(s + t) + rest == Encode(s) + (Encode(t) + rest)
  {
    EncodeConcat(s, t);
  }

  /** An all-ASCII string encodes one byte per character, each its code. */
  lemma {:induction false} EncodeAscii(s: string)
    requires forall i :: 0 <= i < |s| ==> s[i] as int < 0x80
    ensures |Encode(s)| == |s|
    ensures forall i :: 0 <= i < |s| ==> Encode(s)[i] == s[i] as int
  {
    if |s| > 0 {
      EncodeAscii(s[1..]);
      assert forall i :: 1 <= i < |s| ==> Encode(s)[i] == Encode(s[1..])[i - 1];
    }
  }

  /** Conversely, a string whose encoding is all ASCII bytes is itself ASCII,
      one byte per character. */
  lemma {:induction false} AsciiEncoding(s: string)
    requires forall i :: 0 <= i < |Encode(s)| ==> IsAscii(Encode(s)[i])
    ensures |Encode(s)| == |s|
    ensures forall i :: 0 <= i < |s| ==> s[i] as int < 0x80
  {
    if |s| > 0 {
      var e := EncodeChar(s[0]);
      assert Encode(s)[0] == e[0];
      assert forall i :: 0 <= i < |Encode(s[1..])| ==> Encode(s[1..])[i] == Encode(s)[|e| + i];
      AsciiEncoding(s[1..]);
      assert forall i :: 1 <= i < |s| ==> s[i] == s[1..][i - 1];
    }
  }

  /** A byte string that encodes some text decodes to exactly that text. */
  lemma DecodeOfEncoding(b: seq<byte>)
    ensures forall text :: Encode(text) == b ==> Decode(b) == Some(text)
  {
    forall text | Encode(text) == b ensures Decode(b) == Some(text) {
      DecodeEncode(text);
    }
  }
}
