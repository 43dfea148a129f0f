/** The transport codec: `base64.urlsafe_b64encode` / `urlsafe_b64decode`,
    that is the "base64url" alphabet of section 5 of RFC 4648 with the `=`
    padding of section 4. */
module Base64Url {
  import opened Wrappers
  import opened Bytes

  /** A sextet value, the index of a character in the alphabet. */
  type sextet = x: int | 0 <= x < 64

  /** The 64 characters of the base64url alphabet. */
  predicate IsAlphabetChar(c: char) {
    ('A' <= c <= 'Z') || ('a' <= c <= 'z') || ('0' <= c <= '9') || c == '-' || c == '_'
  }

  const Pad: char := '='

  /** Table 2 of RFC 4648: value to character. */
  function IndexToChar(i: sextet): (c: char)
    ensures IsAlphabetChar(c)
  {
    var code := if i < 26 then 'A' as int + i
      else if i < 52 then 'a' as int + (i - 26)
      else if i < 62 then '0' as int + (i - 52)
      else if i == 62 then '-' as int
      else '_' as int;
    code as char
  }

  /** Character to value; None outside the alphabet (padding included). */
  function CharToIndex(c: char): (r: Option<sextet>)
    ensures r.Some? <==> IsAlphabetChar(c)
  {
    if 'A' <= c <= 'Z' then Some(c as int - 'A' as int)
    else if 'a' <= c <= 'z' then Some(c as int - 'a' as int + 26)
    else if '0' <= c <= '9' then Some(c as int - '0' as int + 52)
    else if c == '-' then Some(62)
    else if c == '_' then Some(63)
    else None
  }

  /** The two tables are inverse: every value comes back from its character. */
  lemma IndexToCharInverse(i: sextet)
    ensures CharToIndex(IndexToChar(i)) == Some(i)
  {
  }

  /** ... and every alphabet character from its value. */
  lemma CharToIndexInverse(c: char)
    requires IsAlphabetChar(c)
    ensures IndexToChar(CharToIndex(c).value) == c
  {
  }

  /** A character the encoder may emit. */
  predicate IsEncodedChar(c: char) {
    IsAlphabetChar(c) || c == Pad
  }

  /* The bit-slicing of RFC 4648 section 4: three octets b0 b1 b2 are read
     as four sextets s0 s1 s2 s3, and back. */
  function Sextet0(b0: byte): sextet { b0 / 4 }
  function Sextet1(b0: byte, b1: byte): sextet { (b0 % 4) * 16 + b1 / 16 }
  function Sextet2(b1: byte, b2: byte): sextet { (b1 % 16) * 4 + b2 / 64 }
  function Sextet3(b2: byte): sextet { b2 % 64 }

  function Octet0(s0: sextet, s1: sextet): byte { s0 as int * 4 + s1 as int / 16 }
  function Octet1(s1: sextet, s2: sextet): byte { (s1 as int % 16) * 16 + s2 as int / 4 }
  function Octet2(s2: sextet, s3: sextet): byte { (s2 as int % 4) * 64 + s3 as int }

  lemma Octet0Inverse(b0: byte, b1: byte)
    ensures Octet0(Sextet0(b0), Sextet1(b0, b1)) == b0
  {
    Div16(b0 % 4, b1 / 16);
  }

  lemma Octet1Inverse(b0: byte, b1: byte, b2: byte)
    ensures Octet1(Sextet1(b0, b1), Sextet2(b1, b2)) == b1
  {
    var hi, lo := b1 / 16, b1 % 16;
    Mod16(b0 % 4, hi);
    Div4(lo, b2 / 64);
  }

  lemma Mod16(q: nat, r: nat)
    requires r < 16
    ensures (q * 16 + r) % 16 == r
  {
  }

  lemma Div4(q: nat, r: nat)
    requires r < 4
    ensures (q * 4 + r) / 4 == q
  {
  }

  lemma Octet2Inverse(b1: byte, b2: byte)
    ensures Octet2(Sextet2(b1, b2), Sextet3(b2)) == b2
  {
    Mod4(b1 % 16, b2 / 64);
  }

  /** Three bytes to four characters. */
  function EncodeTriple(b0: byte, b1: byte, b2: byte): (q: string)
    ensures |q| == 4
    ensures forall i :: 0 <= i < 4 ==> IsAlphabetChar(q[i])
  {
    var s := [Sextet0(b0), Sextet1(b0, b1), Sextet2(b1, b2), Sextet3(b2)];
    seq(4, i requires 0 <= i < 4 => IndexToChar(s[i]))
  }

  /** Encoding of the final one or two bytes, padded to four characters:
      |b| + 1 characters of data, then `=`. */
  function EncodeTail(b: bytes): (q: string)
    requires 1 <= |b| <= 2
    ensures |q| == 4
    ensures forall i :: 0 <= i < 4 ==> if i <= |b| then IsAlphabetChar(q[i]) else q[i] == Pad
  {
    var s := if |b| == 1 then [Sextet0(b[0]), Sextet1(b[0], 0)]
      else [Sextet0(b[0]), Sextet1(b[0], b[1]), Sextet2(b[1], 0)];
    seq(4, i requires 0 <= i < 4 => if i < |s| then IndexToChar(s[i]) else Pad)
  }

  /** The length of the encoding of n bytes: four characters per started
      group of three. */
  function EncodedLength(n: nat): nat {
    if n == 0 then 0 else if n <= 3 then 4 else 4 + EncodedLength(n - 3)
  }

  lemma EncodedLengthPositive(n: nat)
    requires n > 0
    ensures EncodedLength(n) >= 4
  {
  }

  /** The number of `=` characters that end the encoding of n bytes. */
  function PadCount(n: nat): nat {
    if n == 0 then 0 else if n == 1 then 2 else if n == 2 then 1 else PadCount(n - 3)
  }

  /** The closed form of the length: 4 * ceil(n / 3) characters. */
  lemma {:induction false} EncodedLengthClosedForm(n: nat)
    ensures EncodedLength(n) == 4 * ((n + 2) / 3)
  {
    if n > 3 {
      EncodedLengthClosedForm(n - 3);
      var q, q' := (n + 2) / 3, (n - 1) / 3;
      assert q == q' + 1;
      assert EncodedLength(n) == 4 + 4 * q';
    }
  }

  /** The closed form of the padding: (3 - n mod 3) mod 3 characters. */
  lemma {:induction false} PadCountClosedForm(n: nat)
    ensures PadCount(n) == (3 - n % 3) % 3
  {
    if n > 3 {
      PadCountClosedForm(n - 3);
      assert n % 3 == (n - 3) % 3;
    }
  }

  /** `base64.urlsafe_b64encode(b).decode()`: one quad per three bytes,
      the last one padded. */
  function Encode(b: bytes): (s: string)
    ensures |s| == EncodedLength(|b|)
    decreases |b|
  {
    if |b| == 0 then ""
    else if |b| <= 2 then EncodeTail(b)
    else EncodeTriple(b[0], b[1], b[2]) + Encode(b[3..])
  }

  /** The length of an encoding is 4 * ceil(n / 3). */
  lemma EncodeLength(b: bytes)
    ensures |Encode(b)| == 4 * ((|b| + 2) / 3)
  {
    EncodedLengthClosedForm(|b|);
  }

  /** Alphabet characters followed by k padding characters. */
  ghost predicate PaddedWith(s: string, k: nat) {
    forall i :: 0 <= i < |s| ==> if i < |s| - k then IsAlphabetChar(s[i]) else s[i] == Pad
  }

  /** A quad of alphabet characters in front keeps the padding at the end. */
  lemma PaddedConcat(s: string, x: string, y: string, k: nat)
    requires s == x + y
    requires |x| == 4 && IsAlphabetChar(x[0]) && IsAlphabetChar(x[1]) && IsAlphabetChar(x[2]) && IsAlphabetChar(x[3])
    requires PaddedWith(y, k) && k <= |y|
    ensures PaddedWith(s, k)
  {
    forall i | 0 <= i < |s|
      ensures if i < |s| - k then IsAlphabetChar(s[i]) else s[i] == Pad
    {
      if i < 4 {
        assert s[i] == x[i];
      } else {
        assert s[i] == y[i - |x|];
      }
    }
  }

  /** The padding never reaches into an earlier quad. */
  lemma {:induction false} PaddingFits(n: nat)
    ensures PadCount(n) <= EncodedLength(n)
  {
    if n > 3 {
      PaddingFits(n - 3);
    }
  }

  /** Three or more bytes: a full quad in front of the rest. */
  lemma EncodeUnfold(b: bytes)
    requires |b| >= 3
    ensures Encode(b) == EncodeTriple(b[0], b[1], b[2]) + Encode(b[3..])
    ensures PadCount(|b|) == PadCount(|b| - 3)
  {
  }

  lemma EncodePaddingStep(b: bytes)
    requires |b| >= 3 && PaddedWith(Encode(b[3..]), PadCount(|b| - 3))
    ensures PaddedWith(Encode(b), PadCount(|b|))
  {
    EncodeUnfold(b);
    PaddingFits(|b| - 3);
    PaddedConcat(Encode(b), EncodeTriple(b[0], b[1], b[2]), Encode(b[3..]), PadCount(|b|));
  }

  /** The output is alphabet characters followed by the padding: no `=` when
      the length is a multiple of three, otherwise two or one. */
  lemma {:induction false} EncodePadding(b: bytes)
    ensures forall i :: 0 <= i < |Encode(b)| ==>
      if i < |Encode(b)| - PadCount(|b|) then IsAlphabetChar(Encode(b)[i]) else Encode(b)[i] == Pad
    decreases |b|
  {
    if 3 <= |b| {
      EncodePadding(b[3..]);
      assert PaddedWith(Encode(b[3..]), PadCount(|b| - 3));
      EncodePaddingStep(b);
      assert PaddedWith(Encode(b), PadCount(|b|));
    }
  }

  /** Every character of an encoding is an alphabet character or `=`. */
  lemma EncodeChars(b: bytes)
    ensures forall i :: 0 <= i < |Encode(b)| ==> IsEncodedChar(Encode(b)[i])
  {
    EncodePadding(b);
  }

  /** Four characters with no padding to three bytes. */
  function DecodeQuad(q: string): (r: Option<bytes>)
    requires |q| == 4
    ensures r.Some? ==> |r.value| == 3
  {
    match (CharToIndex(q[0]), CharToIndex(q[1]), CharToIndex(q[2]), CharToIndex(q[3]))
    case (Some(c0), Some(c1), Some(c2), Some(c3)) =>
      Some([Octet0(c0, c1), Octet1(c1, c2), Octet2(c2, c3)])
    case _ => None
  }

  /** The last quad, which may end in one or two padding characters.
      Bits of the last character that lie beyond the data are ignored. */
  function DecodeLastQuad(q: string): (r: Option<bytes>)
    requires |q| == 4
    ensures r.Some? ==> 1 <= |r.value| <= 3
  {
    if q[2] == Pad && q[3] == Pad then
      match (CharToIndex(q[0]), CharToIndex(q[1]))
      case (Some(c0), Some(c1)) => Some([Octet0(c0, c1)])
      case _ => None
    else if q[3] == Pad then
      match (CharToIndex(q[0]), CharToIndex(q[1]), CharToIndex(q[2]))
      case (Some(c0), Some(c1), Some(c2)) => Some([Octet0(c0, c1), Octet1(c1, c2)])
      case _ => None
    else DecodeQuad(q)
  }

  /** `base64.urlsafe_b64decode(s)` on well-formed input; None on any
      malformed input (wrong length, a character outside the alphabet,
      padding anywhere but the end of the last quad). */
  function Decode(s: string): (r: Option<bytes>)
    ensures r.Some? ==> |s| == EncodedLength(|r.value|)
    decreases |s|
  {
    if |s| == 0 then Some([])
    else if |s| < 4 then None
    else if |s| == 4 then DecodeLastQuad(s)
    else
      match DecodeQuad(s[..4])
      case None => None
      case Some(head) =>
        match Decode(s[4..])
        case None => None
        case Some(tail) => Some(head + tail)
  }

  /** Only text over the alphabet and `=` is accepted. */
  lemma {:induction false} DecodeAccepts(s: string)
    requires Decode(s).Some?
    ensures forall i :: 0 <= i < |s| ==> IsEncodedChar(s[i])
    decreases |s|
  {
    if |s| > 4 {
      DecodeAccepts(s[4..]);
      assert forall i :: 4 <= i < |s| ==> s[i] == s[4..][i - 4];
      assert forall i :: 0 <= i < 4 ==> s[i] == s[..4][i];
    }
  }

  lemma TripleRoundTrip(b0: byte, b1: byte, b2: byte)
    ensures DecodeQuad(EncodeTriple(b0, b1, b2)) == Some([b0, b1, b2])
  {
    IndexToCharInverse(Sextet0(b0));
    IndexToCharInverse(Sextet1(b0, b1));
    IndexToCharInverse(Sextet2(b1, b2));
    IndexToCharInverse(Sextet3(b2));
    Octet0Inverse(b0, b1);
    Octet1Inverse(b0, b1, b2);
    Octet2Inverse(b1, b2);
  }

  lemma OneByteRoundTrip(b0: byte)
    ensures DecodeLastQuad(EncodeTail([b0])) == Some([b0])
  {
    var s0, s1 := Sextet0(b0), Sextet1(b0, 0);
    var q := EncodeTail([b0]);
    assert q == [IndexToChar(s0), IndexToChar(s1), Pad, Pad];
    IndexToCharInverse(s0);
    IndexToCharInverse(s1);
    Octet0Inverse(b0, 0);
  }

  lemma TwoByteRoundTrip(b0: byte, b1: byte)
    ensures DecodeLastQuad(EncodeTail([b0, b1])) == Some([b0, b1])
  {
    var s0, s1, s2 := Sextet0(b0), Sextet1(b0, b1), Sextet2(b1, 0);
    var q := EncodeTail([b0, b1]);
    assert q == [IndexToChar(s0), IndexToChar(s1), IndexToChar(s2), Pad];
    IndexToCharInverse(s0);
    IndexToCharInverse(s1);
    IndexToCharInverse(s2);
    Octet0Inverse(b0, b1);
    Octet1Inverse(b0, b1, 0);
  }

  /** A leading unpadded quad decodes on its own, ahead of the rest. */
  lemma DecodeCons(q: string, t: string)
    requires |q| == 4 && |t| > 0
    requires DecodeQuad(q).Some? && Decode(t).Some?
    ensures Decode(q + t) == Some(DecodeQuad(q).value + Decode(t).value)
  {
    assert (q + t)[..4] == q;
    assert (q + t)[4..] == t;
  }

  lemma ThreeByteRoundTrip(b0: byte, b1: byte, b2: byte)
    ensures Decode(EncodeTriple(b0, b1, b2)) == Some([b0, b1, b2])
  {
    var q := EncodeTriple(b0, b1, b2);
    assert IsAlphabetChar(q[2]) && IsAlphabetChar(q[3]);
    assert DecodeLastQuad(q) == DecodeQuad(q);
    TripleRoundTrip(b0, b1, b2);
  }

  lemma ThreeElements(b: bytes)
    requires |b| == 3
    ensures b == [b[0], b[1], b[2]]
  {
  }

  lemma SplitThree(b: bytes)
    requires |b| >= 3
    ensures b == [b[0], b[1], b[2]] + b[3..]
  {
  }

  /** The inductive step: three more bytes in front add one quad in front. */
  lemma DecodeEncodeStep(b: bytes)
    requires |b| > 3 && Decode(Encode(b[3..])) == Some(b[3..])
    ensures Decode(Encode(b)) == Some(b)
  {
    var head, rest := EncodeTriple(b[0], b[1], b[2]), Encode(b[3..]);
    assert Encode(b) == head + rest;
    TripleRoundTrip(b[0], b[1], b[2]);
    assert |rest| >= 4;
    DecodeCons(head, rest);
    assert Decode(head + rest) == Some([b[0], b[1], b[2]] + b[3..]);
    SplitThree(b);
  }

  lemma DecodeEncodeOne(b: bytes)
    requires |b| == 1
    ensures Decode(Encode(b)) == Some(b)
  {
    assert b == [b[0]];
    OneByteRoundTrip(b[0]);
  }

  lemma DecodeEncodeTwo(b: bytes)
    requires |b| == 2
    ensures Decode(Encode(b)) == Some(b)
  {
    assert b == [b[0], b[1]];
    TwoByteRoundTrip(b[0], b[1]);
  }

  lemma DecodeEncodeThree(b: bytes)
    requires |b| == 3
    ensures Decode(Encode(b)) == Some(b)
  {
    ThreeElements(b);
    ThreeByteEncode(b);
    ThreeByteRoundTrip(b[0], b[1], b[2]);
  }

  /** Decoding an encoding gives back the input, for every byte string. */
  lemma {:induction false} DecodeEncode(b: bytes)
    ensures Decode(Encode(b)) == Some(b)
    decreases |b|
  {
    if |b| == 1 {
      DecodeEncodeOne(b);
    } else if |b| == 2 {
      DecodeEncodeTwo(b);
    } else if |b| == 3 {
      DecodeEncodeThree(b);
    } else if |b| > 3 {
      DecodeEncode(b[3..]);
      DecodeEncodeStep(b);
    }
  }

  /* The reverse direction: which strings are encodings. */

  lemma Sextet0Inverse(c0: sextet, c1: sextet)
    ensures Sextet0(Octet0(c0, c1)) == c0
  {
    Div4(c0, c1 / 16);
  }

  lemma Sextet1Inverse(c0: sextet, c1: sextet, c2: sextet)
    ensures Sextet1(Octet0(c0, c1), Octet1(c1, c2)) == c1
  {
    var hi, lo := c1 / 16, c1 % 16;
    Mod4(c0, hi);
    Div16(lo, c2 / 4);
  }

  lemma Sextet2Inverse(c1: sextet, c2: sextet, c3: sextet)
    ensures Sextet2(Octet1(c1, c2), Octet2(c2, c3)) == c2
  {
    Mod16(c1 % 16, c2 / 4);
    Div64(c2 % 4, c3);
  }

  lemma Sextet3Inverse(c2: sextet, c3: sextet)
    ensures Sextet3(Octet2(c2, c3)) == c3
  {
    Mod64(c2 % 4, c3);
  }

  lemma Mod4(q: nat, r: nat)
    requires r < 4
    ensures (q * 4 + r) % 4 == r
  {
  }

  lemma Div16(q: nat, r: nat)
    requires r < 16
    ensures (q * 16 + r) / 16 == q
  {
  }

  lemma Div64(q: nat, r: nat)
    requires r < 64
    ensures (q * 64 + r) / 64 == q
  {
  }

  lemma Mod64(q: nat, r: nat)
    requires r < 64
    ensures (q * 64 + r) % 64 == r
  {
  }

  /** A final quad whose data character carries no bits beyond the data:
      RFC 4648 section 3.5 requires encoders to set those bits to zero. */
  predicate CanonicalLastQuad(q: string)
    requires |q| == 4
  {
    if q[2] == Pad && q[3] == Pad then
      CharToIndex(q[1]).Some? && CharToIndex(q[1]).value % 16 == 0
    else if q[3] == Pad then
      CharToIndex(q[2]).Some? && CharToIndex(q[2]).value % 4 == 0
    else true
  }

  /** A string whose pad bits are zero. */
  predicate Canonical(s: string) {
    |s| >= 4 ==> CanonicalLastQuad(s[|s| - 4..])
  }

  lemma QuadRoundTrip(q: string)
    requires |q| == 4 && DecodeQuad(q).Some?
    ensures var b := DecodeQuad(q).value; EncodeTriple(b[0], b[1], b[2]) == q
  {
    var c0, c1, c2, c3 := CharToIndex(q[0]).value, CharToIndex(q[1]).value, CharToIndex(q[2]).value, CharToIndex(q[3]).value;
    CharToIndexInverse(q[0]);
    CharToIndexInverse(q[1]);
    CharToIndexInverse(q[2]);
    CharToIndexInverse(q[3]);
    Sextet0Inverse(c0, c1);
    Sextet1Inverse(c0, c1, c2);
    Sextet2Inverse(c1, c2, c3);
    Sextet3Inverse(c2, c3);
  }

  lemma FourElements(q: string)
    requires |q| == 4
    ensures q == [q[0], q[1], q[2], q[3]]
  {
  }

  /** The padded quads, character by character. */
  lemma EncodeTailOne(b0: byte)
    ensures EncodeTail([b0]) == [IndexToChar(Sextet0(b0)), IndexToChar(Sextet1(b0, 0)), Pad, Pad]
  {
  }

  lemma EncodeTailTwo(b0: byte, b1: byte)
    ensures EncodeTail([b0, b1]) == [IndexToChar(Sextet0(b0)), IndexToChar(Sextet1(b0, b1)), IndexToChar(Sextet2(b1, 0)), Pad]
  {
  }

  /** The sextets of a `xx==` quad come back from its one byte. */
  lemma OnePadSextets(c0: sextet, c1: sextet)
    requires c1 % 16 == 0
    ensures Sextet0(Octet0(c0, c1)) == c0 && Sextet1(Octet0(c0, c1), 0) == c1
  {
    Sextet0Inverse(c0, c1);
    Mod4(c0, c1 / 16);
    assert Sextet1(Octet0(c0, c1), 0) == (c1 / 16) * 16;
  }

  /** The sextets of a `xxx=` quad come back from its two bytes. */
  lemma TwoPadSextets(c0: sextet, c1: sextet, c2: sextet)
    requires c2 % 4 == 0
    ensures Sextet0(Octet0(c0, c1)) == c0
    ensures Sextet1(Octet0(c0, c1), Octet1(c1, c2)) == c1
    ensures Sextet2(Octet1(c1, c2), 0) == c2
  {
    Sextet0Inverse(c0, c1);
    Sextet1Inverse(c0, c1, c2);
    Mod16(c1 % 16, c2 / 4);
    assert Sextet2(Octet1(c1, c2), 0) == (c2 / 4) * 4;
  }

  lemma OnePadRoundTrip(q: string)
    requires |q| == 4 && q[2] == Pad && q[3] == Pad
    requires DecodeLastQuad(q).Some? && CanonicalLastQuad(q)
    ensures var b := DecodeLastQuad(q).value; |b| == 1 && EncodeTail(b) == q
  {
    var c0, c1 := CharToIndex(q[0]).value, CharToIndex(q[1]).value;
    CharToIndexInverse(q[0]);
    CharToIndexInverse(q[1]);
    OnePadSextets(c0, c1);
    var o := Octet0(c0, c1);
    assert DecodeLastQuad(q) == Some([o]);
    EncodeTailOne(o);
    FourElements(q);
  }

  lemma TwoPadRoundTrip(q: string)
    requires |q| == 4 && q[2] != Pad && q[3] == Pad
    requires DecodeLastQuad(q).Some? && CanonicalLastQuad(q)
    ensures var b := DecodeLastQuad(q).value; |b| == 2 && EncodeTail(b) == q
  {
    var c0, c1, c2 := CharToIndex(q[0]).value, CharToIndex(q[1]).value, CharToIndex(q[2]).value;
    CharToIndexInverse(q[0]);
    CharToIndexInverse(q[1]);
    CharToIndexInverse(q[2]);
    TwoPadSextets(c0, c1, c2);
    var o0, o1 := Octet0(c0, c1), Octet1(c1, c2);
    assert DecodeLastQuad(q) == Some([o0, o1]);
    EncodeTailTwo(o0, o1);
    FourElements(q);
  }

  lemma LastQuadRoundTrip(q: string)
    requires |q| == 4 && DecodeLastQuad(q).Some? && CanonicalLastQuad(q)
    ensures var b := DecodeLastQuad(q).value;
      q == if |b| == 3 then EncodeTriple(b[0], b[1], b[2]) else EncodeTail(b)
  {
    if q[2] == Pad && q[3] == Pad {
      OnePadRoundTrip(q);
    } else if q[3] == Pad {
      TwoPadRoundTrip(q);
    } else {
      assert DecodeLastQuad(q) == DecodeQuad(q);
      QuadRoundTrip(q);
    }
  }

  lemma EncodeDecodeStep(s: string)
    requires |s| > 4 && Decode(s).Some? && Decode(s[4..]).Some?
    requires Encode(Decode(s[4..]).value) == s[4..]
    ensures Encode(Decode(s).value) == s
  {
    var head, tail := DecodeQuad(s[..4]).value, Decode(s[4..]).value;
    QuadRoundTrip(s[..4]);
    DecodeNonEmpty(s[4..]);
    var b := head + tail;
    assert Decode(s).value == b;
    assert b[3..] == tail && [b[0], b[1], b[2]] == head;
    assert Encode(b) == EncodeTriple(b[0], b[1], b[2]) + Encode(tail);
    assert s == s[..4] + s[4..];
  }

  /** Encoding a decoded canonical string gives back the string. */
  lemma {:induction false} EncodeDecode(s: string)
    requires Decode(s).Some? && Canonical(s)
    ensures Encode(Decode(s).value) == s
    decreases |s|
  {
    if |s| == 4 {
      assert s[|s| - 4..] == s;
      LastQuadRoundTrip(s);
    } else if |s| > 4 {
      assert s[4..][|s[4..]| - 4..] == s[|s| - 4..];
      EncodeDecode(s[4..]);
      EncodeDecodeStep(s);
    }
  }

  lemma DecodeNonEmpty(s: string)
    requires Decode(s).Some? && |s| > 0
    ensures |Decode(s).value| > 0
  {
  }

  /** The encoder fills the bits beyond the data with zeros. */
  lemma TailQuadCanonical(b: bytes)
    requires 1 <= |b| <= 2
    ensures CanonicalLastQuad(EncodeTail(b))
  {
    var q := EncodeTail(b);
    if |b| == 1 {
      var s1 := Sextet1(b[0], 0);
      assert q[1] == IndexToChar(s1);
      IndexToCharInverse(s1);
      assert s1 % 16 == 0;
    } else {
      var s2 := Sextet2(b[1], 0);
      assert q[2] == IndexToChar(s2);
      IndexToCharInverse(s2);
      assert s2 % 4 == 0;
    }
  }

  /** One or two bytes: a single padded quad. */
  lemma EncodeShort(b: bytes)
    requires 1 <= |b| <= 2
    ensures Encode(b) == EncodeTail(b)
  {
  }

  /** The canonical ending of a one- or two-byte encoding. */
  lemma TailCanonical(b: bytes)
    requires 1 <= |b| <= 2
    ensures Canonical(Encode(b))
  {
    EncodeShort(b);
    TailQuadCanonical(b);
    var q := EncodeTail(b);
    assert q[|q| - 4..] == q;
  }

  /** Three bytes encode to one unpadded quad. */
  lemma ThreeByteEncode(b: bytes)
    requires |b| == 3
    ensures Encode(b) == EncodeTriple(b[0], b[1], b[2])
  {
    assert Encode(b[3..]) == [];
  }

  /** Only the back part decides whether a concatenation is canonical. */
  lemma CanonicalConcat(x: string, y: string)
    requires |y| >= 4 && Canonical(y)
    ensures Canonical(x + y)
  {
    assert (x + y)[|x + y| - 4..] == y[|y| - 4..];
  }

  lemma EncodeCanonicalStep(b: bytes)
    requires |b| > 3 && Canonical(Encode(b[3..]))
    ensures Canonical(Encode(b))
  {
    EncodedLengthPositive(|b| - 3);
    CanonicalConcat(EncodeTriple(b[0], b[1], b[2]), Encode(b[3..]));
    EncodeUnfold(b);
  }

  /** Every encoding is canonical. */
  lemma {:induction false} EncodeCanonical(b: bytes)
    ensures Canonical(Encode(b))
    decreases |b|
  {
    if |b| == 1 || |b| == 2 {
      TailCanonical(b);
    } else if |b| == 3 {
      ThreeByteEncode(b);
      assert Encode(b)[0..] == Encode(b);
    } else if |b| > 3 {
      EncodeCanonical(b[3..]);
      EncodeCanonicalStep(b);
    }
  }


  /** The codec is a bijection between byte strings and canonical strings. */
  lemma EncodeIff(b: bytes, s: string)
    ensures Encode(b) == s <==> Decode(s) == Some(b) && Canonical(s)
  {
    if Encode(b) == s {
      DecodeEncode(b);
      EncodeCanonical(b);
    }
    if Decode(s) == Some(b) && Canonical(s) {
      EncodeDecode(s);
    }
  }
}
