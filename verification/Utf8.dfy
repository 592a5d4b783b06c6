// How a JavaScript string becomes bytes (Buffer.from(text), hash.update(text)):
// a surrogate without its partner is replaced by U+FFFD, everything else is UTF-8.
module Utf8 {
  import opened Texts

  type Byte = b: int | 0 <= b < 256
  type Bytes = seq<Byte>

  // A Unicode scalar value: any code point that is not a surrogate.
  type Scalar = c: int | 0 <= c < 0xD800 || 0xE000 <= c < 0x11_0000

  const REPLACEMENT: Scalar := 0xFFFD

  predicate IsLead(u: CodeUnit) { 0xD800 <= u <= 0xDBFF }
  predicate IsTrail(u: CodeUnit) { 0xDC00 <= u <= 0xDFFF }
  predicate IsSurrogate(u: CodeUnit) { 0xD800 <= u <= 0xDFFF }
  predicate StartsWithPair(t: Text) { |t| >= 2 && IsLead(t[0]) && IsTrail(t[1]) }

  function PairPoint(lead: CodeUnit, trail: CodeUnit): Scalar
    requires IsLead(lead) && IsTrail(trail)
  {
    0x1_0000 + (lead - 0xD800) * 0x400 + (trail - 0xDC00)
  }

  function CodePoints(t: Text): seq<Scalar> {
    if t == [] then []
    else if StartsWithPair(t) then [PairPoint(t[0], t[1])] + CodePoints(t[2..])
    else [if IsSurrogate(t[0]) then REPLACEMENT else t[0]] + CodePoints(t[1..])
  }

  /** No surrogate without its partner. */
  predicate WellFormed(t: Text) {
    if t == [] then true
    else if StartsWithPair(t) then WellFormed(t[2..])
    else !IsSurrogate(t[0]) && WellFormed(t[1..])
  }

  function EncodePoint(c: Scalar): Bytes {
    if c < 0x80 then [c]
    else if c < 0x800 then [0xC0 + c / 0x40, 0x80 + c % 0x40]
    else if c < 0x1_0000 then [0xE0 + c / 0x1000, 0x80 + c / 0x40 % 0x40, 0x80 + c % 0x40]
    else [0xF0 + c / 0x4_0000, 0x80 + c / 0x1000 % 0x40, 0x80 + c / 0x40 % 0x40, 0x80 + c % 0x40]
  }

  function Encode(cs: seq<Scalar>): Bytes {
    if cs == [] then [] else EncodePoint(cs[0]) + Encode(cs[1..])
  }

  /** The bytes of a JavaScript string. */
  function ToBytes(t: Text): Bytes {
    Encode(CodePoints(t))
  }

  // ----- the encodings, by their standards -----

  /** Section 3 of RFC 3629: the number of bytes by ranges, and the bits of the
      code point in the leading and the continuation bytes. */
  lemma EncodedAsStandard(c: Scalar)
    ensures var b := EncodePoint(c);
      if c <= 0x7F then b == [c]
      else if c <= 0x7FF then
        |b| == 2 && 0xC2 <= b[0] <= 0xDF && 0x80 <= b[1] <= 0xBF
        && c == (b[0] as int - 0xC0) * 0x40 + (b[1] as int - 0x80)
      else if c <= 0xFFFF then
        |b| == 3 && 0xE0 <= b[0] <= 0xEF && (forall i :: 1 <= i < 3 ==> 0x80 <= b[i] <= 0xBF)
        && c == (b[0] as int - 0xE0) * 0x1000 + (b[1] as int - 0x80) * 0x40 + (b[2] as int - 0x80)
      else
        |b| == 4 && 0xF0 <= b[0] <= 0xF4 && (forall i :: 1 <= i < 4 ==> 0x80 <= b[i] <= 0xBF)
        && c == (b[0] as int - 0xF0) * 0x4_0000 + (b[1] as int - 0x80) * 0x1000
             + (b[2] as int - 0x80) * 0x40 + (b[3] as int - 0x80)
  {
    assert c / 0x1000 == c / 0x40 / 0x40 && c / 0x4_0000 == c / 0x1000 / 0x40;
  }

  // Section 2.1 of RFC 2781: the UTF-16 units of a code point.
  function Utf16(c: Scalar): Text {
    if c < 0x1_0000 then [c] else [0xD800 + (c - 0x1_0000) / 0x400, 0xDC00 + (c - 0x1_0000) % 0x400]
  }

  function AllUtf16(cs: seq<Scalar>): Text {
    if cs == [] then [] else Utf16(cs[0]) + AllUtf16(cs[1..])
  }

  /** A string made of code points holds these code points, and no lone surrogate. */
  lemma {:induction false} CodePointsOfUtf16(cs: seq<Scalar>)
    ensures CodePoints(AllUtf16(cs)) == cs && WellFormed(AllUtf16(cs))
  {
    if cs != [] {
      var u, more := Utf16(cs[0]), AllUtf16(cs[1..]);
      CodePointsOfUtf16(cs[1..]);
      assert (u + more)[|u|..] == more;
      assert cs == [cs[0]] + cs[1..];
    }
  }

  // ----- bytes determine the code points -----

  lemma EncodedPointsCancel(c: Scalar, r: Bytes, d: Scalar, s: Bytes)
    requires EncodePoint(c) + r == EncodePoint(d) + s
    ensures c == d && r == s
  {
    var whole := EncodePoint(c) + r;
    assert whole[0] == EncodePoint(c)[0] && whole[0] == EncodePoint(d)[0];
    assert |EncodePoint(c)| == |EncodePoint(d)| by {
      assert c >= 0x1_0000 ==> 0xF0 <= EncodePoint(c)[0];
      assert d >= 0x1_0000 ==> 0xF0 <= EncodePoint(d)[0];
    }
    var n := |EncodePoint(c)|;
    assert EncodePoint(c) == whole[..n] && EncodePoint(d) == whole[..n];
    assert r == whole[n..] && s == whole[n..];
    SameBytesSamePoint(c, d);
  }

  lemma SameBytesSamePoint(c: Scalar, d: Scalar)
    requires EncodePoint(c) == EncodePoint(d)
    ensures c == d
  {
    var a, b := EncodePoint(c), EncodePoint(d);
    assert |a| == |b|;
    if |a| == 1 {
      assert a[0] == b[0];
    } else if |a| == 2 {
      assert a[0] == b[0] && a[1] == b[1];
    } else if |a| == 3 {
      assert a[0] == b[0] && a[1] == b[1] && a[2] == b[2];
      assert c / 0x1000 == c / 0x40 / 0x40 && d / 0x1000 == d / 0x40 / 0x40;
    } else {
      assert a[0] == b[0] && a[1] == b[1] && a[2] == b[2] && a[3] == b[3];
      assert c / 0x4_0000 == c / 0x1000 / 0x40 && d / 0x4_0000 == d / 0x1000 / 0x40;
      assert c / 0x1000 == c / 0x40 / 0x40 && d / 0x1000 == d / 0x40 / 0x40;
    }
  }

  lemma {:induction false} EncodeIsInjective(cs: seq<Scalar>, ds: seq<Scalar>)
    requires Encode(cs) == Encode(ds)
    ensures cs == ds
  {
    if cs != [] && ds != [] {
      EncodedPointsCancel(cs[0], Encode(cs[1..]), ds[0], Encode(ds[1..]));
      EncodeIsInjective(cs[1..], ds[1..]);
      assert cs == [cs[0]] + cs[1..] && ds == [ds[0]] + ds[1..];
    }
  }

  /** Two strings have the same bytes exactly when they have the same code points. */
  lemma BytesDetermineCodePoints(a: Text, b: Text)
    ensures ToBytes(a) == ToBytes(b) <==> CodePoints(a) == CodePoints(b)
  {
    if ToBytes(a) == ToBytes(b) { EncodeIsInjective(CodePoints(a), CodePoints(b)); }
  }

  lemma {:induction false} WellFormedTextIsItsCodePoints(a: Text, b: Text)
    requires WellFormed(a) && WellFormed(b) && CodePoints(a) == CodePoints(b)
    ensures a == b
  {
    if a != [] && b != [] {
      var p, q := CodePoints(a), CodePoints(b);
      assert p[0] == q[0];
      assert StartsWithPair(a) <==> StartsWithPair(b);
      var n := if StartsWithPair(a) then 2 else 1;
      assert CodePoints(a[n..]) == p[1..] && CodePoints(b[n..]) == q[1..];
      WellFormedTextIsItsCodePoints(a[n..], b[n..]);
      assert a == a[..n] + a[n..] && b == b[..n] + b[n..];
      assert a[..n] == b[..n];
    }
  }

  /** On text without lone surrogates, the bytes determine the text. */
  lemma BytesDetermineWellFormedText(a: Text, b: Text)
    requires WellFormed(a) && WellFormed(b) && ToBytes(a) == ToBytes(b)
    ensures a == b
  {
    BytesDetermineCodePoints(a, b);
    WellFormedTextIsItsCodePoints(a, b);
  }

  lemma {:induction false} WellFormedConcat(a: Text, b: Text)
    requires WellFormed(a) && WellFormed(b)
    ensures WellFormed(a + b)
  {
    if a == [] {
      assert a + b == b;
    } else {
      var n := if StartsWithPair(a) then 2 else 1;
      assert (a + b)[n..] == a[n..] + b;
      WellFormedConcat(a[n..], b);
    }
  }

  lemma {:induction false} PlainIsWellFormed(t: Text)
    requires forall u :: u in t ==> !IsSurrogate(u)
    ensures WellFormed(t)
  {
    if t != [] { PlainIsWellFormed(t[1..]); }
  }

  // ----- which texts share their bytes with another text -----

  /** No replacement character and no lone surrogate. */
  predicate Faithful(t: Text) {
    WellFormed(t) && REPLACEMENT !in t
  }

  /** Lone surrogates written out as the replacement character. */
  function Scrub(t: Text): Text {
    if t == [] then []
    else if StartsWithPair(t) then t[..2] + Scrub(t[2..])
    else [if IsSurrogate(t[0]) then REPLACEMENT else t[0]] + Scrub(t[1..])
  }

  /** Replacement characters written as a lone surrogate. */
  function Unscrub(t: Text): (r: Text)
    ensures |r| == |t|
    ensures forall i :: 0 <= i < |t| ==> r[i] == if t[i] == REPLACEMENT then 0xD800 else t[i]
  {
    seq(|t|, i requires 0 <= i < |t| => if t[i] == REPLACEMENT then 0xD800 else t[i])
  }

  // The second text differs from the first only where a surrogate stood.
  ghost predicate Scrubbed(t: Text, r: Text) {
    |r| == |t| && forall i :: 0 <= i < |t| ==> r[i] == t[i] || (IsSurrogate(t[i]) && r[i] == REPLACEMENT)
  }

  lemma ScrubbedConcat(a: Text, x: Text, b: Text, y: Text)
    requires Scrubbed(a, x) && Scrubbed(b, y)
    ensures Scrubbed(a + b, x + y)
  {
  }

  lemma {:induction false} ScrubKeepsLength(t: Text)
    ensures Scrubbed(t, Scrub(t))
  {
    if t == [] {
    } else if StartsWithPair(t) {
      ScrubKeepsLength(t[2..]);
      ScrubbedConcat(t[..2], t[..2], t[2..], Scrub(t[2..]));
      assert t == t[..2] + t[2..];
    } else {
      var u: CodeUnit := if IsSurrogate(t[0]) then REPLACEMENT else t[0];
      ScrubKeepsLength(t[1..]);
      ScrubbedConcat([t[0]], [u], t[1..], Scrub(t[1..]));
      assert t == [t[0]] + t[1..];
    }
  }

  lemma {:induction false} ScrubIsWellFormed(t: Text)
    ensures WellFormed(Scrub(t))
  {
    if t == [] {
    } else if StartsWithPair(t) {
      ScrubIsWellFormed(t[2..]);
      assert Scrub(t)[2..] == Scrub(t[2..]);
    } else {
      ScrubIsWellFormed(t[1..]);
      assert Scrub(t)[1..] == Scrub(t[1..]);
    }
  }

  lemma {:induction false} ScrubKeepsCodePoints(t: Text)
    ensures CodePoints(Scrub(t)) == CodePoints(t)
  {
    if t == [] {
    } else if StartsWithPair(t) {
      ScrubKeepsCodePoints(t[2..]);
      assert Scrub(t)[2..] == Scrub(t[2..]);
    } else {
      ScrubKeepsCodePoints(t[1..]);
      assert Scrub(t)[1..] == Scrub(t[1..]);
    }
  }

  lemma WellFormedStart(t: Text)
    requires WellFormed(t) && t != []
    ensures !IsTrail(t[0])
  {
  }

  lemma {:induction false} UnscrubKeepsCodePoints(t: Text)
    requires WellFormed(t)
    ensures CodePoints(Unscrub(t)) == CodePoints(t)
  {
    if t == [] {
    } else if StartsWithPair(t) {
      UnscrubKeepsCodePoints(t[2..]);
      assert Unscrub(t)[2..] == Unscrub(t[2..]);
    } else {
      UnscrubKeepsCodePoints(t[1..]);
      assert Unscrub(t)[1..] == Unscrub(t[1..]);
      if t[1..] != [] { WellFormedStart(t[1..]); }
    }
  }

  // A different text of the same length with the same bytes, differing only
  // outside ASCII.
  ghost function Twin(t: Text): (r: Text)
    requires !Faithful(t)
    ensures r != t && |r| == |t|
    ensures forall i :: 0 <= i < |t| ==> r[i] == t[i] || (r[i] >= 0x80 && t[i] >= 0x80)
    ensures ToBytes(r) == ToBytes(t)
  {
    ScrubKeepsLength(t);
    ScrubIsWellFormed(t);
    ScrubKeepsCodePoints(t);
    if !WellFormed(t) then Scrub(t)
    else
      UnscrubKeepsCodePoints(t);
      assert Unscrub(t) != t by {
        var i :| 0 <= i < |t| && t[i] == REPLACEMENT;
        assert Unscrub(t)[i] != t[i];
      }
      Unscrub(t)
  }

  lemma {:induction false} FaithfulFromCodePoints(t: Text)
    ensures REPLACEMENT in CodePoints(t) <==> !Faithful(t)
  {
    if t == [] {
    } else {
      var n := if StartsWithPair(t) then 2 else 1;
      FaithfulFromCodePoints(t[n..]);
      assert t == t[..n] + t[n..];
      assert CodePoints(t) == [CodePoints(t)[0]] + CodePoints(t[n..]);
      assert REPLACEMENT in t <==> REPLACEMENT in t[..n] || REPLACEMENT in t[n..];
    }
  }

  /** A text is determined by its bytes among all texts exactly when it is faithful. */
  lemma BytesDetermineExactlyFaithful(t: Text)
    ensures Faithful(t) <==> forall r :: ToBytes(r) == ToBytes(t) ==> r == t
  {
    if Faithful(t) {
      forall r | ToBytes(r) == ToBytes(t) ensures r == t {
        BytesDetermineCodePoints(r, t);
        FaithfulFromCodePoints(t);
        FaithfulFromCodePoints(r);
        WellFormedTextIsItsCodePoints(r, t);
      }
    } else {
      assert ToBytes(Twin(t)) == ToBytes(t);
    }
  }

  /** Two different texts with the same bytes. */
  lemma LoneSurrogateSharesBytes()
    ensures ToBytes([0xD800]) == ToBytes([0xFFFD])
  {
    assert CodePoints([0xD800]) == [REPLACEMENT] + CodePoints([0xD800][1..]);
    assert CodePoints([0xFFFD]) == [REPLACEMENT] + CodePoints([0xFFFD][1..]);
  }
}
