/**
  Text and bytes of the Python programs: `str.encode()` and the strict `bytes.decode()`.
  A Dafny `char` is a Unicode scalar value, so every string can be encoded; decoding
  refuses truncated, overlong, surrogate and out-of-range sequences.
 */
module Utf8 {
  import opened Wrappers

  type byte = n: int | 0 <= n < 256

  type bytes = seq<byte>

  function EncodeChar(c: char): (b: bytes)
    ensures 1 <= |b| <= 4
  {
    var n := c as int;
    if n < 0x80 then [n]
    else if n < 0x800 then [0xC0 + n / 64, 0x80 + n % 64]
    else if n < 0x1_0000 then [0xE0 + n / 64 / 64, 0x80 + n / 64 % 64, 0x80 + n % 64]
    else [0xF0 + n / 64 / 64 / 64, 0x80 + n / 64 / 64 % 64, 0x80 + n / 64 % 64, 0x80 + n % 64]
  }

  function Encode(text: string): bytes {
    if text == [] then [] else EncodeChar(text[0]) + Encode(text[1..])
  }

  predicate IsContinuation(b: bytes, i: nat) {
    i < |b| && 0x80 <= b[i] < 0xC0
  }

  /** `high` extended by the six payload bits of the continuation byte at `i`. */
  function Extend(high: int, b: bytes, i: nat): int
    requires IsContinuation(b, i)
  {
    high * 64 + (b[i] - 0x80)
  }

  predicate IsScalar(n: int) {
    0 <= n < 0xD800 || 0xE000 <= n < 0x11_0000
  }

  /** The first character of `b` and the number of bytes it takes, if `b` starts with one. */
  function DecodeFirst(b: bytes): (r: Option<(char, nat)>)
    requires b != []
    ensures r.Some? ==> 1 <= r.value.1 <= |b|
  {
    if b[0] < 0x80 then
      Some((b[0] as char, 1))
    else if 0xC0 <= b[0] < 0xE0 && IsContinuation(b, 1) then
      var n := Extend(b[0] - 0xC0, b, 1);
      if 0x80 <= n then Some((n as char, 2)) else None
    else if 0xE0 <= b[0] < 0xF0 && IsContinuation(b, 1) && IsContinuation(b, 2) then
      var n := Extend(Extend(b[0] - 0xE0, b, 1), b, 2);
      if 0x800 <= n && IsScalar(n) then Some((n as char, 3)) else None
    else if 0xF0 <= b[0] < 0xF8 && IsContinuation(b, 1) && IsContinuation(b, 2) && IsContinuation(b, 3) then
      var n := Extend(Extend(Extend(b[0] - 0xF0, b, 1), b, 2), b, 3);
      if 0x1_0000 <= n && IsScalar(n) then Some((n as char, 4)) else None
    else
      None
  }

  /** `None` stands for the UnicodeDecodeError that strict decoding raises. */
  function Decode(b: bytes): Option<string> {
    if b == [] then Some("")
    else
      match DecodeFirst(b)
      case None => None
      case Some((c, k)) =>
        match Decode(b[k..])
        case None => None
        case Some(rest) => Some([c] + rest)
  }

  lemma DecodeFirstOfEncoded(c: char, rest: bytes)
    ensures DecodeFirst(EncodeChar(c) + rest) == Some((c, |EncodeChar(c)|))
  {
    var n := c as int;
    var b := EncodeChar(c) + rest;
    if n < 0x80 {
    } else if n < 0x800 {
      assert b[0] == 0xC0 + n / 64 && b[1] == 0x80 + n % 64;
    } else if n < 0x1_0000 {
      assert b[0] == 0xE0 + n / 64 / 64 && b[1] == 0x80 + n / 64 % 64 && b[2] == 0x80 + n % 64;
    } else {
      assert b[0] == 0xF0 + n / 64 / 64 / 64 && b[1] == 0x80 + n / 64 / 64 % 64;
      assert b[2] == 0x80 + n / 64 % 64 && b[3] == 0x80 + n % 64;
    }
  }

  lemma ExtendSplits(high: int, b: bytes, i: nat)
    requires IsContinuation(b, i)
    ensures Extend(high, b, i) / 64 == high
    ensures 0x80 + Extend(high, b, i) % 64 == b[i]
  {
  }

  lemma EncodedFirstOfDecoded(b: bytes)
    requires b != [] && DecodeFirst(b).Some?
    ensures var (c, k) := DecodeFirst(b).value; b[..k] == EncodeChar(c)
  {
    var (c, k) := DecodeFirst(b).value;
    if k == 1 {
      assert b[..1] == [b[0]];
    } else if k == 2 {
      ExtendSplits(b[0] - 0xC0, b, 1);
      assert b[..2] == [b[0], b[1]];
    } else if k == 3 {
      ExtendSplits(b[0] - 0xE0, b, 1);
      ExtendSplits(Extend(b[0] - 0xE0, b, 1), b, 2);
      assert b[..3] == [b[0], b[1], b[2]];
    } else {
      ExtendSplits(b[0] - 0xF0, b, 1);
      ExtendSplits(Extend(b[0] - 0xF0, b, 1), b, 2);
      ExtendSplits(Extend(Extend(b[0] - 0xF0, b, 1), b, 2), b, 3);
      assert b[..4] == [b[0], b[1], b[2], b[3]];
    }
  }

  lemma {:induction false} EncodeLength(text: string)
    ensures |text| <= |Encode(text)| <= 4 * |text|
  {
    if text != [] {
      EncodeLength(text[1..]);
    }
  }

  /** Encoding then decoding gives the text back. */
  lemma {:induction false} DecodeOfEncode(text: string)
    ensures Decode(Encode(text)) == Some(text)
  {
    if text == [] {
    } else {
      var first := EncodeChar(text[0]);
      DecodeFirstOfEncoded(text[0], Encode(text[1..]));
      DecodeOfEncode(text[1..]);
      assert Encode(text)[|first|..] == Encode(text[1..]);
      assert text == [text[0]] + text[1..];
    }
  }

  /** Bytes that decode are exactly the encoding of what they decode to. */
  lemma {:induction false} EncodeOfDecode(b: bytes)
    requires Decode(b).Some?
    ensures Encode(Decode(b).value) == b
  {
    hide DecodeFirst, EncodeChar;
    if b == [] {
    } else {
      var (c, k) := DecodeFirst(b).value;
      EncodedFirstOfDecoded(b);
      EncodeOfDecode(b[k..]);
      var text := Decode(b).value;
      assert text[0] == c && text[1..] == Decode(b[k..]).value;
      assert b == b[..k] + b[k..];
    }
  }

  lemma {:induction false} EncodeOfConcat(a: string, b: string)
    ensures Encode(a + b) == Encode(a) + Encode(b)
  {
    if a == [] {
      assert a + b == b;
    } else {
      assert (a + b)[1..] == a[1..] + b;
      EncodeOfConcat(a[1..], b);
    }
  }

  /** Text in front of any bytes decodes to itself and leaves the rest to be decoded. */
  lemma {:induction false} DecodeOfPrefixed(text: string, rest: bytes)
    ensures Decode(Encode(text) + rest)
            == match Decode(rest) case None => None case Some(more) => Some(text + more)
  {
    hide DecodeFirst, EncodeChar;
    var b := Encode(text) + rest;
    if text == [] {
      assert b == rest;
      assert Decode(rest).Some? ==> text + Decode(rest).value == Decode(rest).value;
    } else {
      DecodeOfPrefixed(text[1..], rest);
      DecodeOneMore(text[0], Encode(text[1..]) + rest);
      assert b == EncodeChar(text[0]) + (Encode(text[1..]) + rest);
      assert Decode(rest).Some? ==> text + Decode(rest).value == [text[0]] + (text[1..] + Decode(rest).value);
    }
  }

  lemma DecodeOneMore(c: char, rest: bytes)
    ensures Decode(EncodeChar(c) + rest)
            == match Decode(rest) case None => None case Some(more) => Some([c] + more)
  {
    hide DecodeFirst, EncodeChar;
    DecodeFirstOfEncoded(c, rest);
    var b := EncodeChar(c) + rest;
    assert b[|EncodeChar(c)|..] == rest;
  }

  predicate IsAscii(text: string) {
    forall i :: 0 <= i < |text| ==> text[i] as int < 0x80
  }

  lemma {:induction false} AsciiLength(text: string)
    requires IsAscii(text)
    ensures |Encode(text)| == |text|
  {
    if text != [] {
      AsciiLength(text[1..]);
    }
  }

  /** ASCII characters are encoded as their codes. */
  lemma {:induction false} EncodeOfAscii(text: string)
    requires IsAscii(text)
    ensures |Encode(text)| == |text| && forall i :: 0 <= i < |text| ==> Encode(text)[i] == text[i] as int
  {
    if text != [] {
      EncodeOfAscii(text[1..]);
      assert forall i :: 0 < i < |text| ==> Encode(text)[i] == Encode(text[1..])[i - 1];
    }
  }
}
