/**
 * Bytes and byte strings. A Go `string` is a sequence of bytes (its `len` and
 * slicing count bytes), so every string of the model is a `seq<byte>`.
 */
module Bytes {

  type byte = b: int | 0 <= b < 256

  const NUL: byte := 0
  const SPACE: byte := 32
  const SLASH: byte := 47
  const ZERO: byte := 48

  /** The bytes of an ASCII literal. */
  function Ascii(s: string): (b: seq<byte>)
    requires forall i :: 0 <= i < |s| ==> s[i] as int < 128
    ensures |b| == |s|
  {
    seq(|s|, i requires 0 <= i < |s| => s[i] as int)
  }

  /** Number of occurrences of `b` in `s`. */
  function Count(s: seq<byte>, b: byte): nat
  {
    if s == [] then 0 else (if s[0] == b then 1 else 0) + Count(s[1..], b)
  }

  lemma {:induction false} CountZero(s: seq<byte>, b: byte)
    ensures Count(s, b) == 0 <==> b !in s
  {
    if s != [] {
      CountZero(s[1..], b);
      assert s == [s[0]] + s[1..];
    }
  }

  lemma {:induction false} CountAppend(s: seq<byte>, t: seq<byte>, b: byte)
    ensures Count(s + t, b) == Count(s, b) + Count(t, b)
  {
    if s == [] {
      assert s + t == t;
    } else {
      assert (s + t)[1..] == s[1..] + t;
      CountAppend(s[1..], t, b);
    }
  }

  predicate IsDigit(c: byte)
  {
    ZERO <= c < ZERO + 10
  }

  /**
   * The decimal rendering of `n`, as fmt's `%d` verb writes a non-negative
   * integer: digits only, and no leading zero except for `0` itself.
   */
  function Decimal(n: nat): (s: seq<byte>)
    ensures |s| >= 1
    ensures forall i :: 0 <= i < |s| ==> IsDigit(s[i])
    ensures (s[0] == ZERO) <==> (n == 0)
  {
    if n < 10 then [ZERO + n] else Decimal(n / 10) + [ZERO + n % 10]
  }

  /** The value of a string of decimal digits. */
  function DecimalValue(s: seq<byte>): nat
    requires forall i :: 0 <= i < |s| ==> IsDigit(s[i])
  {
    if s == [] then 0
    else
      var last := s[|s| - 1];
      assert IsDigit(last);
      DecimalValue(s[..|s| - 1]) * 10 + (last - ZERO)
  }

  /** Reading back the decimal rendering gives the number rendered. */
  lemma {:induction false} DecimalRoundTrip(n: nat)
    ensures DecimalValue(Decimal(n)) == n
  {
    var s := Decimal(n);
    if n >= 10 {
      DecimalRoundTrip(n / 10);
      assert s[..|s| - 1] == Decimal(n / 10);
    }
  }

  /** A decimal rendering holds neither a NUL nor a space. */
  lemma DecimalHasNoNulOrSpace(n: nat)
    ensures NUL !in Decimal(n) && SPACE !in Decimal(n)
  {
  }
}
