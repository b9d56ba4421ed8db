/** UTF-16 code units, Unicode scalar values and the conversion between
    them that a JavaScript engine performs when a string is handed to
    TextEncoder, or built from the code points TextDecoder produces
    (surrogate pairs as in section 2.1 of RFC 2781).
 */
module Unicode {

  /** One element of a JavaScript string, as returned by charCodeAt. */
  type CodeUnit = u: int | 0 <= u < 0x1_0000

  /** A Unicode scalar value: a code point that is not a surrogate. */
  type Scalar = c: int | 0 <= c < 0xD800 || 0xE000 <= c < 0x11_0000

  /** U+FFFD, substituted for every lone surrogate and every bad byte sequence. */
  const Replacement: Scalar := 0xFFFD

  /** U+FEFF, the byte order mark. */
  const ByteOrderMark: Scalar := 0xFEFF

  predicate IsLead(u: CodeUnit) { 0xD800 <= u <= 0xDBFF }

  predicate IsTrail(u: CodeUnit) { 0xDC00 <= u <= 0xDFFF }

  predicate IsSurrogate(u: CodeUnit) { 0xD800 <= u <= 0xDFFF }

  /** Every lead surrogate is followed by a trail surrogate and every trail
      surrogate is preceded by a lead surrogate: no lone surrogates. */
  predicate WellFormed(s: seq<CodeUnit>)
  {
    forall i {:trigger s[i]} :: 0 <= i < |s| ==>
      (IsLead(s[i]) ==> i + 1 < |s| && IsTrail(s[i + 1])) &&
      (IsTrail(s[i]) ==> 0 < i && IsLead(s[i - 1]))
  }

  /** The supplementary code point that a surrogate pair stands for. */
  function Combine(lead: CodeUnit, trail: CodeUnit): (c: Scalar)
    requires IsLead(lead) && IsTrail(trail)
    ensures 0x1_0000 <= c
  {
    0x1_0000 + (lead - 0xD800) * 0x400 + (trail - 0xDC00)
  }

  /** The code units of one scalar value: itself, or a surrogate pair. */
  function UnitsOf(c: Scalar): (r: seq<CodeUnit>)
    ensures c < 0x1_0000 ==> r == [c]
    ensures 0x1_0000 <= c ==> |r| == 2 && IsLead(r[0]) && IsTrail(r[1]) && Combine(r[0], r[1]) == c
  {
    if c < 0x1_0000 then [c]
    else
      var v := c - 0x1_0000;
      [0xD800 + v / 0x400, 0xDC00 + v % 0x400]
  }

  /** How many units the first scalar value of a non-empty string takes:
      two for a surrogate pair, one otherwise. */
  function HeadWidth(s: seq<CodeUnit>): (w: nat)
    requires |s| > 0
    ensures 1 <= w <= |s|
  {
    if IsLead(s[0]) && |s| >= 2 && IsTrail(s[1]) then 2 else 1
  }

  /** The first scalar value of a non-empty string: a surrogate pair is one
      supplementary code point, any other surrogate is U+FFFD. */
  function Head(s: seq<CodeUnit>): (r: Scalar)
    requires |s| > 0
  {
    if HeadWidth(s) == 2 then Combine(s[0], s[1])
    else if IsSurrogate(s[0]) then Replacement
    else s[0]
  }

  /** Reads a string as scalar values, left to right. */
  function ToScalars(s: seq<CodeUnit>): (r: seq<Scalar>)
    ensures |r| <= |s|
    decreases |s|
  {
    if s == [] then [] else [Head(s)] + ToScalars(s[HeadWidth(s)..])
  }

  /** Writes scalar values back as a string. */
  function FromScalars(cs: seq<Scalar>): (r: seq<CodeUnit>)
    ensures |cs| <= |r| <= 2 * |cs|
  {
    if cs == [] then [] else UnitsOf(cs[0]) + FromScalars(cs[1..])
  }

  /** The first scalar value does not look past a boundary that does not
      cut a surrogate pair. */
  lemma HeadAppend(a: seq<CodeUnit>, b: seq<CodeUnit>)
    requires |a| > 0
    requires !(|b| > 0 && IsLead(a[|a| - 1]) && IsTrail(b[0]))
    ensures HeadWidth(a + b) == HeadWidth(a) && Head(a + b) == Head(a)
  {
    var ab := a + b;
    assert ab[0] == a[0];
    if |a| >= 2 {
      assert ab[1] == a[1];
    } else if |b| > 0 {
      assert ab[1] == b[0];
    }
  }

  /** Reading a string splits at any boundary that does not cut a surrogate pair. */
  lemma {:induction false} ToScalarsSplit(a: seq<CodeUnit>, b: seq<CodeUnit>)
    requires !(|a| > 0 && |b| > 0 && IsLead(a[|a| - 1]) && IsTrail(b[0]))
    ensures ToScalars(a + b) == ToScalars(a) + ToScalars(b)
    decreases |a|
  {
    if a == [] {
      assert a + b == b;
    } else {
      var w := HeadWidth(a);
      HeadAppend(a, b);
      assert (a + b)[w..] == a[w..] + b;
      ToScalarsSplit(a[w..], b);
    }
  }


  lemma WellFormedAt(s: seq<CodeUnit>, i: int)
    requires WellFormed(s) && 0 <= i < |s|
    ensures IsLead(s[i]) ==> i + 1 < |s| && IsTrail(s[i + 1])
    ensures IsTrail(s[i]) ==> 0 < i && IsLead(s[i - 1])
  {
  }

  lemma WellFormedTail(s: seq<CodeUnit>, k: nat)
    requires WellFormed(s) && k <= |s|
    requires k < |s| ==> !IsTrail(s[k])
    ensures WellFormed(s[k..])
  {
    var t := s[k..];
    forall i | 0 <= i < |t|
      ensures IsLead(t[i]) ==> i + 1 < |t| && IsTrail(t[i + 1])
      ensures IsTrail(t[i]) ==> 0 < i && IsLead(t[i - 1])
    {
      assert t[i] == s[k + i];
      assert IsLead(s[k + i]) ==> k + i + 1 < |s| && IsTrail(s[k + i + 1]);
      if i + 1 < |t| {
        assert t[i + 1] == s[k + i + 1];
      }
      if 0 < i {
        assert t[i - 1] == s[k + i - 1];
      }
    }
  }

  lemma UnitsOfCombine(lead: CodeUnit, trail: CodeUnit)
    requires IsLead(lead) && IsTrail(trail)
    ensures UnitsOf(Combine(lead, trail)) == [lead, trail]
  {
  }

  /** A well-formed string survives being read as scalar values and written back. */
  lemma {:induction false} FromToScalars(s: seq<CodeUnit>)
    requires WellFormed(s)
    ensures FromScalars(ToScalars(s)) == s
  {
    if s != [] {
      if IsLead(s[0]) {
        assert |s| >= 2 && IsTrail(s[1]);
        WellFormedTail(s, 2);
        FromToScalars(s[2..]);
        UnitsOfCombine(s[0], s[1]);
        assert ToScalars(s) == [Combine(s[0], s[1])] + ToScalars(s[2..]);
        assert s == [s[0], s[1]] + s[2..];
      } else {
        WellFormedTail(s, 1);
        FromToScalars(s[1..]);
        assert !IsSurrogate(s[0]);
        assert ToScalars(s) == [s[0]] + ToScalars(s[1..]);
        assert s == [s[0]] + s[1..];
      }
    }
  }

  /** Writing scalar values as a string and reading it back gives them again. */
  lemma {:induction false} ToFromScalars(cs: seq<Scalar>)
    ensures ToScalars(FromScalars(cs)) == cs
  {
    if cs != [] {
      var u := UnitsOf(cs[0]);
      ToScalarsSplit(u, FromScalars(cs[1..]));
      if cs[0] < 0x1_0000 {
        assert ToScalars(u) == [cs[0]] + ToScalars(u[1..]);
      } else {
        assert ToScalars(u) == [Combine(u[0], u[1])] + ToScalars(u[2..]);
      }
      ToFromScalars(cs[1..]);
    }
  }

  /** Scalar values written as a string never leave a lone surrogate. */
  lemma {:induction false} FromScalarsWellFormed(cs: seq<Scalar>)
    ensures WellFormed(FromScalars(cs))
  {
    if cs != [] {
      FromScalarsWellFormed(cs[1..]);
      var u, t := UnitsOf(cs[0]), FromScalars(cs[1..]);
      assert FromScalars(cs) == u + t;
      var ut := u + t;
      forall i | 0 <= i < |ut|
        ensures IsLead(ut[i]) ==> i + 1 < |ut| && IsTrail(ut[i + 1])
        ensures IsTrail(ut[i]) ==> 0 < i && IsLead(ut[i - 1])
      {
        if i < |u| {
          if |u| == 2 {
            assert ut[0] == u[0] && ut[1] == u[1];
          }
        } else {
          var j := i - |u|;
          assert ut[i] == t[j];
          if j + 1 < |t| {
            assert ut[i + 1] == t[j + 1];
          }
          if 0 < j {
            assert ut[i - 1] == t[j - 1];
          } else {
            assert !IsTrail(t[0]);
          }
        }
      }
    }
  }
}
