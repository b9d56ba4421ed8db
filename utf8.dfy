/** UTF-8 as section 3 of RFC 3629 defines it, and the UTF-8 decoder of the
    WHATWG Encoding Standard that TextDecoder runs: a bad or truncated byte
    sequence is not an error but yields U+FFFD, once per maximal subpart.
 */
module Utf8 {
  import opened Unicode

  type Byte = b: int | 0 <= b < 0x100

  predicate InRange(b: Byte, lo: Byte, hi: Byte) { lo <= b <= hi }

  /** The one to four bytes of a scalar value (the table in section 3 of RFC 3629). */
  function EncodeScalar(c: Scalar): (r: seq<Byte>)
    ensures |r| == if c < 0x80 then 1 else if c < 0x800 then 2 else if c < 0x1_0000 then 3 else 4
  {
    var q1, r1 := c / 64, c % 64;
    var q2, r2 := q1 / 64, q1 % 64;
    var q3, r3 := q2 / 64, q2 % 64;
    if c < 0x80 then [c]
    else if c < 0x800 then [0xC0 + q1, 0x80 + r1]
    else if c < 0x1_0000 then [0xE0 + q2, 0x80 + r2, 0x80 + r1]
    else [0xF0 + q3, 0x80 + r3, 0x80 + r2, 0x80 + r1]
  }

  /** The bytes of a sequence of scalar values, one to four per value. */
  function EncodeScalars(cs: seq<Scalar>): (r: seq<Byte>)
    ensures |cs| <= |r| <= 4 * |cs|
  {
    if cs == [] then [] else EncodeScalar(cs[0]) + EncodeScalars(cs[1..])
  }

  lemma EncodeScalarsAppend(a: seq<Scalar>, b: seq<Scalar>)
    ensures EncodeScalars(a + b) == EncodeScalars(a) + EncodeScalars(b)
  {
    if a == [] {
      assert a + b == b;
    } else {
      assert (a + b)[0] == a[0];
      assert (a + b)[1..] == a[1..] + b;
      EncodeScalarsAppend(a[1..], b);
    }
  }

  /** Decodes the sequence at the front of a non-empty byte string: the scalar
      value it stands for and how many bytes it takes. A lead byte that cannot
      start a sequence, a continuation byte outside its permitted range (the
      range of the first one depending on the lead byte, which rules out
      overlong forms, surrogates and values past U+10FFFF) or the end of the
      input gives U+FFFD; the byte that did not fit is not consumed. */
  function Step(b: seq<Byte>): (r: (Scalar, nat))
    requires |b| > 0
    ensures 1 <= r.1 <= |b|
    ensures b[0] < 0x80 ==> r == (b[0], 1)
    ensures r.1 > 1 ==> 0xC2 <= b[0] <= 0xF4 && (forall k :: 1 <= k < r.1 ==> 0x80 <= b[k] <= 0xBF)
  {
    var b0 := b[0] as int;
    if b0 < 0x80 then (b0, 1)
    else if 0xC2 <= b0 <= 0xDF then
      if |b| < 2 || !InRange(b[1], 0x80, 0xBF) then (Replacement, 1)
      else ((b0 - 0xC0) * 64 + (b[1] as int - 0x80), 2)
    else if 0xE0 <= b0 <= 0xEF then
      var lo: Byte := if b0 == 0xE0 then 0xA0 else 0x80;
      var hi: Byte := if b0 == 0xED then 0x9F else 0xBF;
      if |b| < 2 || !InRange(b[1], lo, hi) then (Replacement, 1)
      else if |b| < 3 || !InRange(b[2], 0x80, 0xBF) then (Replacement, 2)
      else ((b0 - 0xE0) * 4096 + (b[1] as int - 0x80) * 64 + (b[2] as int - 0x80), 3)
    else if 0xF0 <= b0 <= 0xF4 then
      var lo: Byte := if b0 == 0xF0 then 0x90 else 0x80;
      var hi: Byte := if b0 == 0xF4 then 0x8F else 0xBF;
      if |b| < 2 || !InRange(b[1], lo, hi) then (Replacement, 1)
      else if |b| < 3 || !InRange(b[2], 0x80, 0xBF) then (Replacement, 2)
      else if |b| < 4 || !InRange(b[3], 0x80, 0xBF) then (Replacement, 3)
      else ((b0 - 0xF0) * 262144 + (b[1] as int - 0x80) * 4096 + (b[2] as int - 0x80) * 64 + (b[3] as int - 0x80), 4)
    else (Replacement, 1)
  }

  /** Decodes a whole byte string into scalar values. */
  function DecodeScalars(b: seq<Byte>): (r: seq<Scalar>)
    ensures |r| <= |b|
    ensures |r| == 0 <==> |b| == 0
    decreases |b|
  {
    if b == [] then []
    else
      var (c, n) := Step(b);
      [c] + DecodeScalars(b[n..])
  }

  /** The decoder reads the encoding of a scalar value back as that value. */
  lemma StepEncoded(c: Scalar, rest: seq<Byte>)
    ensures Step(EncodeScalar(c) + rest) == (c, |EncodeScalar(c)|)
  {
    var e := EncodeScalar(c);
    var b := e + rest;
    assert b[0] == e[0];
    if |e| >= 2 { assert b[1] == e[1]; }
    if |e| >= 3 { assert b[2] == e[2]; }
    if |e| >= 4 { assert b[3] == e[3]; }
  }

  /** Decoding undoes encoding. */
  lemma {:induction false} DecodeEncode(cs: seq<Scalar>)
    ensures DecodeScalars(EncodeScalars(cs)) == cs
  {
    if cs != [] {
      var e, rest := EncodeScalar(cs[0]), EncodeScalars(cs[1..]);
      StepEncoded(cs[0], rest);
      assert (e + rest)[|e|..] == rest;
      DecodeEncode(cs[1..]);
    }
  }
}
