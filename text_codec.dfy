/** The two platform objects the byte codec relies on, as the WHATWG
    Encoding Standard specifies them:
    - `new TextEncoder().encode(str)` turns the string into scalar values
      (every lone surrogate becoming U+FFFD) and writes them as UTF-8;
    - `new TextDecoder(label, { ignoreBOM }).decode(bytes)` runs the
      non-fatal UTF-8 decoder and, unless ignoreBOM is set, drops a U+FEFF
      that comes first. `new TextDecoder()` has ignoreBOM false.
 */
module TextCodec {
  import opened Unicode
  import opened Utf8

  /** TextEncoder.encode. */
  function Encode(s: seq<CodeUnit>): (r: seq<Byte>)
  {
    EncodeScalars(ToScalars(s))
  }

  /** The encoding is empty exactly when the string is. */
  lemma EncodeEmpty(s: seq<CodeUnit>)
    ensures |Encode(s)| == 0 <==> |s| == 0
  {
    if |s| > 0 {
      assert |ToScalars(s)| > 0;
    }
  }

  /** The byte order mark step of TextDecoder.decode: what remains is a
      suffix of the decoded values that lacks at most one of them, and one is
      missing exactly when ignoreBOM is false and the first value is U+FEFF. */
  function SkipBom(cs: seq<Scalar>, ignoreBom: bool): (r: seq<Scalar>)
    ensures |cs| - 1 <= |r| <= |cs|
    ensures r == cs[|cs| - |r|..]
    ensures |r| < |cs| <==> !ignoreBom && |cs| > 0 && cs[0] == ByteOrderMark
  {
    if !ignoreBom && |cs| > 0 && cs[0] == ByteOrderMark then cs[1..] else cs
  }

  /** TextDecoder.decode, non-fatal: the result never holds a lone
      surrogate, and read back as scalar values it is what the decoder
      produced. */
  function Decode(b: seq<Byte>, ignoreBom: bool): (r: seq<CodeUnit>)
    ensures WellFormed(r)
    ensures ToScalars(r) == SkipBom(DecodeScalars(b), ignoreBom)
  {
    var cs := SkipBom(DecodeScalars(b), ignoreBom);
    FromScalarsWellFormed(cs);
    ToFromScalars(cs);
    FromScalars(cs)
  }

  predicate StartsWithBom(s: seq<CodeUnit>) { |s| > 0 && s[0] == ByteOrderMark }

  /** With ignoreBOM set, decoding the encoding of any string gives the
      string with each lone surrogate replaced by U+FFFD, and a well-formed
      string unchanged. */
  lemma DecodeEncodeKeepBom(s: seq<CodeUnit>)
    ensures Decode(Encode(s), true) == FromScalars(ToScalars(s))
    ensures WellFormed(Decode(Encode(s), true))
    ensures WellFormed(s) ==> Decode(Encode(s), true) == s
  {
    DecodeEncode(ToScalars(s));
    FromScalarsWellFormed(ToScalars(s));
    if WellFormed(s) {
      FromToScalars(s);
    }
  }

  /** With the default decoder, a well-formed string comes back unchanged
      exactly when it does not start with U+FEFF; when it does, that first
      unit is lost. */
  lemma DecodeEncodeDefault(s: seq<CodeUnit>)
    requires WellFormed(s)
    ensures Decode(Encode(s), false) == if StartsWithBom(s) then s[1..] else s
    ensures Decode(Encode(s), false) == s <==> !StartsWithBom(s)
  {
    var cs := ToScalars(s);
    DecodeEncode(cs);
    FromToScalars(s);
    if StartsWithBom(s) {
      assert cs == [s[0]] + ToScalars(s[1..]);
      WellFormedTail(s, 1);
      FromToScalars(s[1..]);
      assert |s[1..]| < |s|;
    } else if s != [] {
      assert !IsTrail(s[0]) by { WellFormedAt(s, 0); }
      if IsLead(s[0]) {
        assert cs[0] >= 0x1_0000;
      } else {
        assert cs[0] == s[0];
      }
    }
  }

  /** The concrete case: the two-unit string U+FEFF U+0041 comes back as "A". */
  lemma LeadingBomDropped()
    ensures Encode([0xFEFF, 0x41]) == [0xEF, 0xBB, 0xBF, 0x41]
    ensures Decode(Encode([0xFEFF, 0x41]), false) == [0x41]
    ensures Decode(Encode([0xFEFF, 0x41]), true) == [0xFEFF, 0x41]
  {
    var s: seq<CodeUnit> := [0xFEFF, 0x41];
    assert ToScalars(s) == [0xFEFF, 0x41] by {
      assert s[1..] == [0x41];
      assert ToScalars(s[1..]) == [0x41] + ToScalars([]);
    }
    assert EncodeScalars([0xFEFF, 0x41]) == EncodeScalar(0xFEFF) + EncodeScalars([0x41]);
    assert EncodeScalars([0x41]) == [0x41] + EncodeScalars([]);
    var b: seq<Byte> := [0xEF, 0xBB, 0xBF, 0x41];
    assert DecodeScalars(b) == [0xFEFF, 0x41] by {
      assert Step(b) == (0xFEFF, 3);
      assert b[3..] == [0x41];
      assert DecodeScalars(b[3..]) == [0x41] + DecodeScalars([]);
    }
    assert FromScalars([0x41]) == [0x41] + FromScalars([]);
    assert FromScalars([0xFEFF, 0x41]) == [0xFEFF] + FromScalars([0x41]);
  }
}
