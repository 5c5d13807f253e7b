/**
 * Base16 as `encoding/hex` writes it: the alphabet of section 8 of RFC 4648
 * in lower case, two characters per byte, high nibble first.
 */
module Hex {
  import opened Wrappers
  import opened Bytes

  /** The character of a nibble: '0'..'9' then 'a'..'f'. */
  function Digit(v: nat): (c: byte)
    requires v < 16
  {
    if v < 10 then ZERO + v else 87 + v
  }

  predicate IsLowerHexDigit(c: byte)
  {
    ZERO <= c < ZERO + 10 || 97 <= c < 103
  }

  predicate IsLowerHex(s: seq<byte>)
  {
    forall i :: 0 <= i < |s| ==> IsLowerHexDigit(s[i])
  }

  /** The value of a lower-case hex character. */
  function DigitValue(c: byte): (v: Option<nat>)
    ensures v.Some? <==> IsLowerHexDigit(c)
    ensures v.Some? ==> v.value < 16 && Digit(v.value) == c
  {
    if ZERO <= c < ZERO + 10 then Some(c - ZERO)
    else if 97 <= c < 103 then Some(c - 87)
    else None
  }

  /** `hex.EncodeToString`. */
  function Encode(h: seq<byte>): (s: seq<byte>)
    ensures |s| == 2 * |h|
    ensures IsLowerHex(s)
  {
    if h == [] then [] else [Digit(h[0] / 16), Digit(h[0] % 16)] + Encode(h[1..])
  }

  /** Byte `i` is rendered at positions `2i` (high nibble) and `2i + 1` (low nibble). */
  lemma {:induction false} EncodeDigits(h: seq<byte>)
    ensures forall i :: 0 <= i < |h| ==> Encode(h)[2 * i] == Digit(h[i] / 16) && Encode(h)[2 * i + 1] == Digit(h[i] % 16)
  {
    if h != [] {
      EncodeDigits(h[1..]);
      var rest := Encode(h[1..]);
      assert Encode(h) == [Digit(h[0] / 16), Digit(h[0] % 16)] + rest;
      forall i | 1 <= i < |h|
        ensures Encode(h)[2 * i] == Digit(h[i] / 16) && Encode(h)[2 * i + 1] == Digit(h[i] % 16)
      {
        assert h[1..][i - 1] == h[i];
        assert Encode(h)[2 * i] == rest[2 * (i - 1)];
        assert Encode(h)[2 * i + 1] == rest[2 * (i - 1) + 1];
      }
    }
  }

  /** The inverse of `Encode`: lower-case hex of even length back to bytes. */
  function Decode(s: seq<byte>): (r: Option<seq<byte>>)
    decreases |s|
  {
    if |s| % 2 == 1 then None
    else if s == [] then Some([])
    else
      match (DigitValue(s[0]), DigitValue(s[1]), Decode(s[2..]))
      case (Some(hi), Some(lo), Some(rest)) => Some([hi * 16 + lo] + rest)
      case _ => None
  }

  lemma {:induction false} DecodeEncode(h: seq<byte>)
    ensures Decode(Encode(h)) == Some(h)
  {
    if h != [] {
      var hi, lo := h[0] / 16, h[0] % 16;
      var rest := Encode(h[1..]);
      var s := Encode(h);
      assert s == [Digit(hi), Digit(lo)] + rest;
      assert s[0] == Digit(hi) && s[1] == Digit(lo) && s[2..] == rest;
      DecodeEncode(h[1..]);
      assert DigitValue(s[0]) == Some(hi);
      assert DigitValue(s[1]) == Some(lo);
      assert hi * 16 + lo == h[0];
      assert Decode(s) == Some([h[0]] + h[1..]);
      assert h == [h[0]] + h[1..];
    }
  }

  lemma {:induction false} EncodeDecode(s: seq<byte>, h: seq<byte>)
    requires Decode(s) == Some(h)
    ensures Encode(h) == s
  {
    if s != [] {
      var hi := DigitValue(s[0]).value;
      var lo := DigitValue(s[1]).value;
      var rest := Decode(s[2..]).value;
      EncodeDecode(s[2..], rest);
      assert h == [hi * 16 + lo] + rest;
      assert h[1..] == rest;
      assert (hi * 16 + lo) / 16 == hi && (hi * 16 + lo) % 16 == lo;
      assert s == [s[0], s[1]] + s[2..];
    }
  }

  /** Distinct byte strings have distinct renderings. */
  lemma EncodeInjective(a: seq<byte>, b: seq<byte>)
    requires Encode(a) == Encode(b)
    ensures a == b
  {
    DecodeEncode(a);
    DecodeEncode(b);
  }
}
