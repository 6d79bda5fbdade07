/** The UTF-8 charset as the JDK applies it to Java strings: encoding a
    sequence of UTF-16 code units into bytes and decoding bytes back. */
module Utf8 {
  import opened Prelude

  predicate IsHighSurrogate(c: Char16) { 0xD800 <= c <= 0xDBFF }
  predicate IsLowSurrogate(c: Char16) { 0xDC00 <= c <= 0xDFFF }
  predicate IsSurrogate(c: Char16) { 0xD800 <= c <= 0xDFFF }
  predicate IsContinuation(b: Byte) { 0x80 <= b < 0xC0 }

  /** The byte the encoder writes for an unpaired surrogate ('?'). */
  const Unmappable: Byte := 0x3F
  /** The code unit the decoder yields for a malformed byte (U+FFFD). */
  const ReplacementChar: Char16 := 0xFFFD

  /** A string with no unpaired surrogate: every high surrogate is followed
      by a low one, and every low one follows a high one. */
  predicate WellFormed(s: JString)
    decreases |s|
  {
    if |s| == 0 then true
    else if IsHighSurrogate(s[0]) then |s| >= 2 && IsLowSurrogate(s[1]) && WellFormed(s[2..])
    else !IsLowSurrogate(s[0]) && WellFormed(s[1..])
  }

  /** The code point a surrogate pair stands for. */
  function CodePoint(hi: Char16, lo: Char16): (cp: int)
    requires IsHighSurrogate(hi) && IsLowSurrogate(lo)
    ensures 0x1_0000 <= cp <= 0x10_FFFF
  {
    0x1_0000 + (hi - 0xD800) * 0x400 + (lo - 0xDC00)
  }

  /** One to three bytes for a code unit that is not a surrogate. */
  function EncodeBmp(c: Char16): (r: seq<Byte>)
    requires !IsSurrogate(c)
    ensures 1 <= |r| <= 3
  {
    if c < 0x80 then [c]
    else if c < 0x800 then [0xC0 + c / 0x40, 0x80 + c % 0x40]
    else [0xE0 + c / 0x1000, 0x80 + (c / 0x40) % 0x40, 0x80 + c % 0x40]
  }

  /** Four bytes for a code point beyond the basic multilingual plane. */
  function EncodeSupplementary(cp: int): (r: seq<Byte>)
    requires 0x1_0000 <= cp <= 0x10_FFFF
    ensures |r| == 4
  {
    [0xF0 + cp / 0x4_0000, 0x80 + (cp / 0x1000) % 0x40, 0x80 + (cp / 0x40) % 0x40, 0x80 + cp % 0x40]
  }

  /** `String.getBytes(UTF_8)`: a surrogate pair becomes one four-byte
      sequence, an unpaired surrogate becomes '?'. */
  function Encode(s: JString): seq<Byte>
    decreases |s|
  {
    if |s| == 0 then []
    else if IsHighSurrogate(s[0]) && |s| >= 2 && IsLowSurrogate(s[1]) then
      EncodeSupplementary(CodePoint(s[0], s[1])) + Encode(s[2..])
    else if IsSurrogate(s[0]) then [Unmappable] + Encode(s[1..])
    else EncodeBmp(s[0]) + Encode(s[1..])
  }

  /** Decodes the sequence at the head of `b`: the code units it yields and
      the number of bytes it takes. A byte that does not start a well-formed
      sequence yields U+FFFD and is skipped on its own. */
  function DecodeHead(b: seq<Byte>): (r: (JString, nat))
    requires |b| > 0
    ensures 1 <= r.1 <= |b|
  {
    var b0 := b[0];
    if b0 < 0x80 then ([b0], 1)
    else if 0xC2 <= b0 <= 0xDF && |b| >= 2 && IsContinuation(b[1]) then
      ([(b0 - 0xC0) * 0x40 + (b[1] - 0x80)], 2)
    else if 0xE0 <= b0 <= 0xEF && |b| >= 3 && IsContinuation(b[1]) && IsContinuation(b[2])
            && 0x800 <= ThreeByteValue(b0, b[1], b[2])
            && !(0xD800 <= ThreeByteValue(b0, b[1], b[2]) <= 0xDFFF) then
      ([ThreeByteValue(b0, b[1], b[2])], 3)
    else if 0xF0 <= b0 <= 0xF4 && |b| >= 4
            && IsContinuation(b[1]) && IsContinuation(b[2]) && IsContinuation(b[3])
            && 0x1_0000 <= FourByteValue(b0, b[1], b[2], b[3]) <= 0x10_FFFF then
      var cp := FourByteValue(b0, b[1], b[2], b[3]);
      ([0xD800 + (cp - 0x1_0000) / 0x400, 0xDC00 + (cp - 0x1_0000) % 0x400], 4)
    else ([ReplacementChar], 1)
  }

  function ThreeByteValue(b0: Byte, b1: Byte, b2: Byte): int
    requires 0xE0 <= b0 <= 0xEF && IsContinuation(b1) && IsContinuation(b2)
  {
    (b0 - 0xE0) * 0x1000 + (b1 - 0x80) * 0x40 + (b2 - 0x80)
  }

  function FourByteValue(b0: Byte, b1: Byte, b2: Byte, b3: Byte): int
    requires 0xF0 <= b0 && IsContinuation(b1) && IsContinuation(b2) && IsContinuation(b3)
  {
    (b0 - 0xF0) * 0x4_0000 + (b1 - 0x80) * 0x1000 + (b2 - 0x80) * 0x40 + (b3 - 0x80)
  }

  /** `new String(bytes, UTF_8)`. */
  function Decode(b: seq<Byte>): JString
    decreases |b|
  {
    if |b| == 0 then []
    else
      var (units, used) := DecodeHead(b);
      units + Decode(b[used..])
  }

  /** UTF-8 takes at least one byte per code unit and at most three. */
  lemma {:induction false} EncodedLengthBounds(s: JString)
    ensures |s| <= |Encode(s)| <= 3 * |s|
    decreases |s|
  {
    if |s| == 0 {
    } else if IsHighSurrogate(s[0]) && |s| >= 2 && IsLowSurrogate(s[1]) {
      EncodedLengthBounds(s[2..]);
    } else {
      EncodedLengthBounds(s[1..]);
    }
  }

  /** UTF-8 decoding yields at most one code unit per byte. */
  lemma {:induction false} DecodedLengthBound(b: seq<Byte>)
    ensures |Decode(b)| <= |b|
    decreases |b|
  {
    if |b| > 0 {
      var (units, used) := DecodeHead(b);
      assert |units| <= used;
      DecodedLengthBound(b[used..]);
    }
  }

  /** Decoding a head sequence and continuing from the bytes after it. */
  lemma DecodeStep(e: seq<Byte>, rest: seq<Byte>, units: JString)
    requires |e| > 0 && DecodeHead(e + rest) == (units, |e|)
    ensures Decode(e + rest) == units + Decode(rest)
  {
    assert (e + rest)[|e|..] == rest;
  }

  lemma DecodeBmpHead(c: Char16, rest: seq<Byte>)
    requires !IsSurrogate(c)
    ensures DecodeHead(EncodeBmp(c) + rest) == ([c], |EncodeBmp(c)|)
  {
    if 0x80 <= c < 0x800 {
      DecodeTwoByteHead(c, rest);
    } else if 0x800 <= c {
      DecodeThreeByteHead(c, rest);
    }
  }

  lemma DecodeTwoByteHead(c: Char16, rest: seq<Byte>)
    requires 0x80 <= c < 0x800
    ensures DecodeHead(EncodeBmp(c) + rest) == ([c], |EncodeBmp(c)|)
  {
    var b := EncodeBmp(c) + rest;
    assert b[0] == 0xC0 + c / 0x40 && b[1] == 0x80 + c % 0x40;
  }

  lemma DecodeThreeByteHead(c: Char16, rest: seq<Byte>)
    requires 0x800 <= c && !IsSurrogate(c)
    ensures DecodeHead(EncodeBmp(c) + rest) == ([c], |EncodeBmp(c)|)
  {
    var b := EncodeBmp(c) + rest;
    assert b[0] == 0xE0 + c / 0x1000;
    assert b[1] == 0x80 + (c / 0x40) % 0x40;
    assert b[2] == 0x80 + c % 0x40;
    assert ThreeByteValue(b[0], b[1], b[2]) == c;
  }

  /** Splitting a number below 2^21 into a 3-bit group and three 6-bit
      groups and joining them again gives the number back. */
  lemma SixBitGroups(x: int)
    requires 0 <= x < 0x20_0000
    ensures (x / 0x4_0000) * 0x4_0000 + ((x / 0x1000) % 0x40) * 0x1000
            + ((x / 0x40) % 0x40) * 0x40 + x % 0x40 == x
  {
    var q1 := x / 0x40;
    var q2 := q1 / 0x40;
    var q3 := q2 / 0x40;
    assert x == q1 * 0x40 + x % 0x40;
    assert q1 == q2 * 0x40 + q1 % 0x40;
    assert q2 == q3 * 0x40 + q2 % 0x40;
    assert q2 == x / 0x1000;
    assert q3 == x / 0x4_0000;
  }

  lemma DecodeSupplementaryHead(hi: Char16, lo: Char16, rest: seq<Byte>)
    requires IsHighSurrogate(hi) && IsLowSurrogate(lo)
    ensures DecodeHead(EncodeSupplementary(CodePoint(hi, lo)) + rest) == ([hi, lo], 4)
  {
    var cp := CodePoint(hi, lo);
    var b := EncodeSupplementary(cp) + rest;
    assert b[0] == 0xF0 + cp / 0x4_0000;
    assert b[1] == 0x80 + (cp / 0x1000) % 0x40;
    assert b[2] == 0x80 + (cp / 0x40) % 0x40;
    assert b[3] == 0x80 + cp % 0x40;
    SixBitGroups(cp);
    assert FourByteValue(b[0], b[1], b[2], b[3]) == cp;
    var off := cp - 0x1_0000;
    assert off == (hi - 0xD800) * 0x400 + (lo - 0xDC00);
    assert off / 0x400 == hi - 0xD800;
    assert off % 0x400 == lo - 0xDC00;
  }

  /** Decoding inverts encoding on every well-formed string. */
  lemma {:induction false} DecodeEncode(s: JString)
    requires WellFormed(s)
    ensures Decode(Encode(s)) == s
    decreases |s|
  {
    if |s| == 0 {
    } else if IsHighSurrogate(s[0]) {
      var e := EncodeSupplementary(CodePoint(s[0], s[1]));
      DecodeSupplementaryHead(s[0], s[1], Encode(s[2..]));
      DecodeStep(e, Encode(s[2..]), [s[0], s[1]]);
      DecodeEncode(s[2..]);
      assert s == [s[0], s[1]] + s[2..];
    } else {
      var e := EncodeBmp(s[0]);
      DecodeBmpHead(s[0], Encode(s[1..]));
      DecodeStep(e, Encode(s[1..]), [s[0]]);
      DecodeEncode(s[1..]);
      assert s == [s[0]] + s[1..];
    }
  }
}
