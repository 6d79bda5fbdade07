/** The byte helpers the partition file format is built from: UTF-8 byte
    counts and conversions, and 4-byte big-endian integers. */
module StorageUtil {
  import opened Prelude
  import Utf8

  /** The width of every integer field in the file format. */
  const IntWidth: nat := 4

  /** The two's-complement bit pattern of a Java int, read unsigned. */
  function Unsigned(v: Int32): (u: int)
    ensures 0 <= u < 0x1_0000_0000
    ensures u % 0x1_0000_0000 == v % 0x1_0000_0000
  {
    if v < 0 then v + 0x1_0000_0000 else v
  }

  /** The number four bytes stand for, most significant byte first. */
  function BigEndianValue(b0: Byte, b1: Byte, b2: Byte, b3: Byte): int
  {
    b0 * 0x100_0000 + b1 * 0x1_0000 + b2 * 0x100 + b3
  }

  /** `getBytesCount`: the length of the string's UTF-8 encoding, which is
      at least one and at most three bytes per code unit. */
  function GetBytesCount(s: JString): (n: nat)
    ensures n == |Utf8.Encode(s)|
    ensures |s| <= n <= 3 * |s|
  {
    Utf8.EncodedLengthBounds(s);
    |Utf8.Encode(s)|
  }

  /** `convertByteArrayToString`: decodes the bytes as UTF-8. Every byte
      yields at most one code unit (a four-byte sequence yields two);
      `StringRoundTrip` shows it inverts `StringToByteArray`. */
  function ByteArrayToString(b: seq<Byte>): (s: JString)
    ensures |s| <= |b|
  {
    Utf8.DecodedLengthBound(b);
    Utf8.Decode(b)
  }

  /** `s.getBytes(UTF8)`: one to three bytes per code unit;
      `StringRoundTrip` shows the bytes of a well-formed string decode
      back to it. */
  function StringToByteArray(s: JString): (b: seq<Byte>)
    ensures |s| <= |b| <= 3 * |s|
  {
    Utf8.EncodedLengthBounds(s);
    Utf8.Encode(s)
  }

  /** `convertByteArrayToString` recovers every string without an unpaired
      surrogate from its UTF-8 bytes. */
  lemma StringRoundTrip(s: JString)
    requires Utf8.WellFormed(s)
    ensures ByteArrayToString(StringToByteArray(s)) == s
  {
    Utf8.DecodeEncode(s);
  }

  /** `convertIntToByteArray`: four bytes, big-endian, holding the int's
      two's-complement bit pattern. */
  function IntToByteArray(v: Int32): (r: seq<Byte>)
    ensures |r| == IntWidth
    ensures BigEndianValue(r[0], r[1], r[2], r[3]) == Unsigned(v)
    ensures (r[0] >= 0x80) <==> (v < 0)
  {
    var u := Unsigned(v);
    var r := [u / 0x100_0000, (u / 0x1_0000) % 0x100, (u / 0x100) % 0x100, u % 0x100];
    ByteGroups(u);
    r
  }

  lemma ByteGroups(u: int)
    requires 0 <= u < 0x1_0000_0000
    ensures BigEndianValue(u / 0x100_0000, (u / 0x1_0000) % 0x100, (u / 0x100) % 0x100, u % 0x100) == u
  {
    var q1 := u / 0x100;
    var q2 := q1 / 0x100;
    assert u == q1 * 0x100 + u % 0x100;
    assert q1 == q2 * 0x100 + q1 % 0x100;
    assert q2 == u / 0x1_0000;
    assert q2 == (q2 / 0x100) * 0x100 + q2 % 0x100;
    assert q2 / 0x100 == u / 0x100_0000;
  }

  /** `convertByteArrayToInt`: reads the first four bytes as a big-endian
      two's-complement int; fewer than four bytes is a buffer underflow. */
  function ByteArrayToInt(b: seq<Byte>): (r: Option<Int32>)
    ensures r.None? <==> |b| < IntWidth
    ensures r.Some? ==> Unsigned(r.value) == BigEndianValue(b[0], b[1], b[2], b[3])
  {
    if |b| < IntWidth then None
    else
      var u := BigEndianValue(b[0], b[1], b[2], b[3]);
      Some(if u >= 0x8000_0000 then u - 0x1_0000_0000 else u)
  }

  /** Reading back the four bytes of an int gives the int. */
  lemma IntRoundTrip(v: Int32, rest: seq<Byte>)
    ensures ByteArrayToInt(IntToByteArray(v) + rest) == Some(v)
  {
    var b := IntToByteArray(v) + rest;
    assert b[..4] == IntToByteArray(v);
  }

  /** Four bytes read as an int and written again are the same four bytes:
      the two conversions are a bijection. */
  lemma BytesRoundTrip(b: seq<Byte>)
    requires |b| >= IntWidth
    ensures IntToByteArray(ByteArrayToInt(b).value) == b[..IntWidth]
  {
    var v := ByteArrayToInt(b).value;
    var r := IntToByteArray(v);
    var u := BigEndianValue(b[0], b[1], b[2], b[3]);
    assert Unsigned(v) == u;
    DigitsUnique(r[0], r[1], r[2], r[3], b[0], b[1], b[2], b[3]);
  }

  /** The big-endian value determines its four bytes. */
  lemma DigitsUnique(a0: Byte, a1: Byte, a2: Byte, a3: Byte, b0: Byte, b1: Byte, b2: Byte, b3: Byte)
    requires BigEndianValue(a0, a1, a2, a3) == BigEndianValue(b0, b1, b2, b3)
    ensures a0 == b0 && a1 == b1 && a2 == b2 && a3 == b3
  {
    var ha, hb := (a0 * 0x100 + a1) * 0x100 + a2, (b0 * 0x100 + b1) * 0x100 + b2;
    assert BigEndianValue(a0, a1, a2, a3) == ha * 0x100 + a3;
    assert BigEndianValue(b0, b1, b2, b3) == hb * 0x100 + b3;
    Digit(ha, a3);
    Digit(hb, b3);
    Digit(a0 * 0x100 + a1, a2);
    Digit(b0 * 0x100 + b1, b2);
    Digit(a0, a1);
    Digit(b0, b1);
  }

  /** The last base-256 digit and the rest are recovered by `%` and `/`. */
  lemma Digit(hi: nat, lo: Byte)
    ensures (hi * 0x100 + lo) / 0x100 == hi && (hi * 0x100 + lo) % 0x100 == lo
  {
  }
}
