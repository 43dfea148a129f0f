/** `str.encode()` with its default codec, UTF-8 (RFC 3629). A Dafny `char`
    is a Unicode scalar value, so every string here is encodable. */
module Utf8 {
  import opened Wrappers
  import opened Bytes

  /** A continuation byte 10xxxxxx carrying the low six bits of x. */
  function Cont(x: nat): byte { 0x80 + x % 64 }

  /** The encoding of one scalar value: 1 to 4 bytes by range; the lead
      byte carries the high bits, each continuation byte six more. */
  function EncodeChar(c: char): (r: bytes)
    ensures 1 <= |r| <= 4
  {
    var cp := c as int;
    if cp < 0x80 then [cp]
    else if cp < 0x800 then [0xC0 + cp / 64, Cont(cp)]
    else if cp < 0x10000 then [0xE0 + cp / 64 / 64, Cont(cp / 64), Cont(cp)]
    else [0xF0 + cp / 64 / 64 / 64, Cont(cp / 64 / 64), Cont(cp / 64), Cont(cp)]
  }

  /** `s.encode()`: the concatenation of the encodings of its characters. */
  function Encode(s: string): (r: bytes)
    ensures |s| <= |r| <= 4 * |s|
    ensures r == [] <==> s == []
  {
    if s == [] then [] else EncodeChar(s[0]) + Encode(s[1..])
  }

  predicate IsCont(b: byte) { 0x80 <= b < 0xC0 }

  /** The number of bytes a sequence starting with lead byte `b` takes, or
      0 when `b` cannot start one. */
  function SequenceLength(b: byte): nat {
    if b < 0x80 then 1
    else if 0xC2 <= b < 0xE0 then 2
    else if 0xE0 <= b < 0xF0 then 3
    else if 0xF0 <= b < 0xF5 then 4
    else 0
  }

  /** The six payload bits of a continuation byte. */
  function Bits(b: byte): int { b as int - 0x80 }

  /** Is `cp` a Unicode scalar value, i.e. a valid `char`? */
  predicate IsScalar(cp: int) {
    (0 <= cp < 0xD800) || (0xE000 <= cp < 0x110000)
  }

  /** Strict decoding of one scalar value at the front of `b`, with the
      number of bytes it took: rejects overlong forms, surrogates and values
      above U+10FFFF, as Python's decoder does. */
  function DecodeChar(b: bytes): (r: Option<(char, nat)>)
    ensures r.Some? ==> 1 <= r.value.1 <= |b|
  {
    if |b| == 0 then None
    else
      var n := SequenceLength(b[0]);
      if n == 0 || |b| < n then None
      else if n == 1 then Some((b[0] as char, 1))
      else if n == 2 then
        if IsCont(b[1]) then Some((((b[0] as int - 0xC0) * 64 + Bits(b[1])) as char, 2)) else None
      else if n == 3 then
        if IsCont(b[1]) && IsCont(b[2]) then
          var cp := ((b[0] as int - 0xE0) * 64 + Bits(b[1])) * 64 + Bits(b[2]);
          if cp < 0x800 || !IsScalar(cp) then None else Some((cp as char, 3))
        else None
      else
        if IsCont(b[1]) && IsCont(b[2]) && IsCont(b[3]) then
          var cp := (((b[0] as int - 0xF0) * 64 + Bits(b[1])) * 64 + Bits(b[2])) * 64 + Bits(b[3]);
          if cp < 0x10000 || !IsScalar(cp) then None else Some((cp as char, 4))
        else None
  }

  /** `b.decode()`: None where Python raises UnicodeDecodeError. */
  function Decode(b: bytes): (r: Option<string>)
    decreases |b|
  {
    if b == [] then Some([])
    else
      match DecodeChar(b)
      case None => None
      case Some((c, n)) =>
        match Decode(b[n..])
        case None => None
        case Some(rest) => Some([c] + rest)
  }

  lemma DecodeEncodeTwo(c: char, rest: bytes)
    requires 0x80 <= c as int < 0x800
    ensures DecodeChar(EncodeChar(c) + rest) == Some((c, 2))
  {
  }

  lemma DecodeEncodeThree(c: char, rest: bytes)
    requires 0x800 <= c as int < 0x10000
    ensures DecodeChar(EncodeChar(c) + rest) == Some((c, 3))
  {
  }

  lemma DecodeEncodeFour(c: char, rest: bytes)
    requires 0x10000 <= c as int
    ensures DecodeChar(EncodeChar(c) + rest) == Some((c, 4))
  {
  }

  /** A character's encoding, whatever follows it, decodes back to the
      character and takes exactly its own bytes. */
  lemma DecodeEncodeChar(c: char, rest: bytes)
    ensures DecodeChar(EncodeChar(c) + rest) == Some((c, |EncodeChar(c)|))
  {
    var cp := c as int;
    if cp < 0x80 {
    } else if cp < 0x800 {
      DecodeEncodeTwo(c, rest);
    } else if cp < 0x10000 {
      DecodeEncodeThree(c, rest);
    } else {
      DecodeEncodeFour(c, rest);
    }
  }

  /** Decoding an encoding gives back the string; so `Encode` is injective. */
  lemma {:induction false} DecodeEncode(s: string)
    ensures Decode(Encode(s)) == Some(s)
  {
    if s != [] {
      var head, tail := EncodeChar(s[0]), Encode(s[1..]);
      DecodeEncodeChar(s[0], tail);
      assert (head + tail)[|head|..] == tail;
      DecodeEncode(s[1..]);
      assert s == [s[0]] + s[1..];
    }
  }
}
