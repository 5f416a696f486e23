/**
 * The standard base64 encoding of section 4 of RFC 4648, as Python's
 * `base64.b64encode` produces it: every 3 bytes become 4 characters of the
 * 64-character alphabet, and a final group of 1 or 2 bytes is padded with `=`.
 * A decoder is given beside it so that the encoding can be shown lossless.
 */
module Base64 {
  import opened Wrappers
  import PyStr

  type Byte = x: int | 0 <= x < 256

  /** A 6-bit value, the index of one alphabet character. */
  type Sextet = x: int | 0 <= x < 64

  /**
   * The alphabet of table 1 in section 4 of RFC 4648: values 0..25 are
   * `A`..`Z`, 26..51 are `a`..`z`, 52..61 are `0`..`9`, 62 is `+`, 63 is `/`.
   */
  function CharOf(v: Sextet): char {
    if v < 26 then ('A' as int + v) as char
    else if v < 52 then ('a' as int + (v - 26)) as char
    else if v < 62 then ('0' as int + (v - 52)) as char
    else if v == 62 then '+'
    else '/'
  }

  /** `c` is one of the 64 characters of the alphabet. */
  predicate InAlphabet(c: char) {
    ('A' <= c <= 'Z') || ('a' <= c <= 'z') || ('0' <= c <= '9') || c == '+' || c == '/'
  }

  /** The padding character. */
  const Pad: char := '='

  /** The index of `c` in the alphabet, if it is an alphabet character. */
  function ValueOf(c: char): (r: Option<Sextet>)
    ensures r.Some? <==> InAlphabet(c)
  {
    if 'A' <= c <= 'Z' then Some(c as int - 'A' as int)
    else if 'a' <= c <= 'z' then Some(c as int - 'a' as int + 26)
    else if '0' <= c <= '9' then Some(c as int - '0' as int + 52)
    else if c == '+' then Some(62)
    else if c == '/' then Some(63)
    else None
  }

  /** Looking a character up in the alphabet and back gives the same index. */
  lemma ValueOfCharOf(v: Sextet)
    ensures ValueOf(CharOf(v)) == Some(v)
  {
  }

  /** Three bytes as four characters: the 24 bits cut into four 6-bit indices. */
  function EncodeTriple(b0: Byte, b1: Byte, b2: Byte): string {
    [CharOf(b0 / 4), CharOf((b0 % 4) * 16 + b1 / 16), CharOf((b1 % 16) * 4 + b2 / 64), CharOf(b2 % 64)]
  }

  /** `base64.b64encode(data)`. */
  function Encode(data: seq<Byte>): (r: string)
    ensures |r| == 4 * ((|data| + 2) / 3)
    ensures forall k :: 0 <= k < |r| ==> InAlphabet(r[k]) || r[k] == Pad
    decreases |data|
  {
    if |data| >= 3 then
      EncodeTriple(data[0], data[1], data[2]) + Encode(data[3..])
    else if |data| == 2 then
      [CharOf(data[0] / 4), CharOf((data[0] % 4) * 16 + data[1] / 16), CharOf((data[1] % 16) * 4), Pad]
    else if |data| == 1 then
      [CharOf(data[0] / 4), CharOf((data[0] % 4) * 16), Pad, Pad]
    else
      []
  }

  /** Four alphabet characters back to three bytes. */
  function DecodeQuad(c0: Sextet, c1: Sextet, c2: Sextet, c3: Sextet): seq<Byte> {
    [c0 * 4 + c1 / 16, (c1 % 16) * 16 + c2 / 4, (c2 % 4) * 64 + c3]
  }

  /** The bytes a base64 text stands for, or None when it is not base64. */
  function Decode(s: string): Option<seq<Byte>>
    decreases |s|
  {
    if |s| == 0 then Some([])
    else if |s| < 4 then None
    else
      match (ValueOf(s[0]), ValueOf(s[1]))
      case (None, _) => None
      case (_, None) => None
      case (Some(c0), Some(c1)) =>
        if |s| == 4 && s[2] == Pad && s[3] == Pad then
          Some([c0 * 4 + c1 / 16])
        else
          match ValueOf(s[2])
          case None => None
          case Some(c2) =>
            if |s| == 4 && s[3] == Pad then
              Some([c0 * 4 + c1 / 16, (c1 % 16) * 16 + c2 / 4])
            else
              match (ValueOf(s[3]), Decode(s[4..]))
              case (Some(c3), Some(rest)) => Some(DecodeQuad(c0, c1, c2, c3) + rest)
              case _ => None
  }

  /** Decoding an encoding gives back the bytes: base64 loses nothing. */
  lemma {:induction false} DecodeEncode(data: seq<Byte>)
    ensures Decode(Encode(data)) == Some(data)
    decreases |data|
  {
    if |data| >= 3 {
      DecodeEncode(data[3..]);
      DecodeFullGroup(data);
    } else if |data| == 2 {
      DecodeTwoBytes(data);
    } else if |data| == 1 {
      DecodeOneByte(data);
    }
  }

  /** Cutting three bytes into sextets and joining the sextets again is the identity. */
  lemma SextetArithmetic(b0: Byte, b1: Byte, b2: Byte)
    ensures ((b0 % 4) * 16 + b1 / 16) / 16 == b0 % 4
    ensures ((b0 % 4) * 16 + b1 / 16) % 16 == b1 / 16
    ensures ((b1 % 16) * 4 + b2 / 64) / 4 == b1 % 16
    ensures ((b1 % 16) * 4 + b2 / 64) % 4 == b2 / 64
    ensures (b0 / 4) * 4 + b0 % 4 == b0
    ensures (b1 / 16) * 16 + b1 % 16 == b1
    ensures (b2 / 64) * 64 + b2 % 64 == b2
  {
  }

  /** The sextets of three bytes decode to the same three bytes. */
  lemma TripleRoundTrip(b0: Byte, b1: Byte, b2: Byte)
    ensures DecodeQuad(b0 / 4, (b0 % 4) * 16 + b1 / 16, (b1 % 16) * 4 + b2 / 64, b2 % 64) == [b0, b1, b2]
  {
    SextetArithmetic(b0, b1, b2);
  }

  /** A full group in front of a text decodes to its three bytes in front of what the text decodes to. */
  lemma DecodeGroupThen(b0: Byte, b1: Byte, b2: Byte, t: string, rest: seq<Byte>)
    requires Decode(t) == Some(rest)
    ensures Decode(EncodeTriple(b0, b1, b2) + t) == Some([b0, b1, b2] + rest)
  {
    var s := EncodeTriple(b0, b1, b2) + t;
    var c0, c1, c2, c3 := b0 / 4, (b0 % 4) * 16 + b1 / 16, (b1 % 16) * 4 + b2 / 64, b2 % 64;
    ValueOfCharOf(c0); ValueOfCharOf(c1); ValueOfCharOf(c2); ValueOfCharOf(c3);
    assert s[4..] == t;
    TripleRoundTrip(b0, b1, b2);
  }

  /** A sequence of at least three bytes is its first three followed by the rest. */
  lemma FirstThree(data: seq<Byte>)
    requires |data| >= 3
    ensures data == [data[0], data[1], data[2]] + data[3..]
  {
  }

  /** A full group of three bytes decodes back, followed by whatever the rest decodes to. */
  lemma DecodeFullGroup(data: seq<Byte>)
    requires |data| >= 3
    requires Decode(Encode(data[3..])) == Some(data[3..])
    ensures Decode(Encode(data)) == Some(data)
  {
    var rest := data[3..];
    var t := Encode(rest);
    FirstThree(data);
    assert Encode(data) == EncodeTriple(data[0], data[1], data[2]) + t;
    DecodeGroupThen(data[0], data[1], data[2], t, rest);
  }

  /** The padded four-character group of a final pair of bytes decodes back to the pair. */
  lemma DecodePair(b0: Byte, b1: Byte)
    ensures Decode([CharOf(b0 / 4), CharOf((b0 % 4) * 16 + b1 / 16), CharOf((b1 % 16) * 4), Pad]) == Some([b0, b1])
  {
    var c0, c1, c2 := b0 / 4, (b0 % 4) * 16 + b1 / 16, (b1 % 16) * 4;
    ValueOfCharOf(c0); ValueOfCharOf(c1); ValueOfCharOf(c2);
    SextetArithmetic(b0, b1, 0);
  }

  /** The padded four-character group of a final byte decodes back to the byte. */
  lemma DecodeSingle(b0: Byte)
    ensures Decode([CharOf(b0 / 4), CharOf((b0 % 4) * 16), Pad, Pad]) == Some([b0])
  {
    ValueOfCharOf(b0 / 4); ValueOfCharOf((b0 % 4) * 16);
    SextetArithmetic(b0, 0, 0);
  }

  /** A final group of two bytes decodes back. */
  lemma DecodeTwoBytes(data: seq<Byte>)
    requires |data| == 2
    ensures Decode(Encode(data)) == Some(data)
  {
    DecodePair(data[0], data[1]);
    assert data == [data[0], data[1]];
  }

  /** A final single byte decodes back. */
  lemma DecodeOneByte(data: seq<Byte>)
    requires |data| == 1
    ensures Decode(Encode(data)) == Some(data)
  {
    DecodeSingle(data[0]);
    assert data == [data[0]];
  }

  /** The base64 text that every JPEG file begins with. */
  const JpegPrefix: string := "/9j/"

  /** The bytes begin with the JPEG start-of-image marker FF D8 followed by the FF of the next marker. */
  predicate StartsWithJpegMarker(data: seq<Byte>) {
    |data| >= 3 && data[0] == 0xFF && data[1] == 0xD8 && data[2] == 0xFF
  }

  /** Which sextet stands behind an encoded character. */
  lemma CharOfInjective(v: Sextet, w: Sextet)
    requires CharOf(v) == CharOf(w)
    ensures v == w
  {
    ValueOfCharOf(v);
    ValueOfCharOf(w);
  }

  /**
   * The base64 text starts with "/9j/" exactly when the bytes are at least
   * three long and begin FF D8 FF.
   */
  lemma JpegPrefixIff(data: seq<Byte>)
    ensures PyStr.StartsWith(Encode(data), JpegPrefix) <==> StartsWithJpegMarker(data)
  {
    var s := Encode(data);
    if |data| >= 3 {
      var b0, b1, b2 := data[0], data[1], data[2];
      assert s[..4] == EncodeTriple(b0, b1, b2);
      if PyStr.StartsWith(s, JpegPrefix) {
        assert CharOf(b0 / 4) == CharOf(63);
        assert CharOf((b0 % 4) * 16 + b1 / 16) == CharOf(61);
        assert CharOf((b1 % 16) * 4 + b2 / 64) == CharOf(35);
        assert CharOf(b2 % 64) == CharOf(63);
        CharOfInjective(b0 / 4, 63);
        CharOfInjective((b0 % 4) * 16 + b1 / 16, 61);
        CharOfInjective((b1 % 16) * 4 + b2 / 64, 35);
        CharOfInjective(b2 % 64, 63);
      }
      if StartsWithJpegMarker(data) {
        assert EncodeTriple(b0, b1, b2) == [CharOf(63), CharOf(61), CharOf(35), CharOf(63)];
      }
    } else if |data| == 2 {
      assert s[3] == Pad;
    } else if |data| == 1 {
      assert s[2] == Pad;
    }
  }
}
