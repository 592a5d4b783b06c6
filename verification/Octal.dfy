// File modes as octal text: mode.toString(8).padStart(4, "0").
module Octal {
  import opened Texts

  const ZERO: CodeUnit := 0x30

  predicate IsOctalDigit(u: CodeUnit) { 0x30 <= u <= 0x37 }

  predicate IsOctalText(t: Text) {
    forall i :: 0 <= i < |t| ==> IsOctalDigit(t[i])
  }

  function OctalText(n: nat): (t: Text)
    ensures t != [] && IsOctalText(t)
  {
    if n < 8 then [0x30 + n] else OctalText(n / 8) + [0x30 + n % 8]
  }

  function PadStart(t: Text, width: nat): (p: Text)
    ensures |p| == if |t| < width then width else |t|
    ensures IsOctalText(t) ==> IsOctalText(p)
    decreases width - |t|
  {
    if |t| >= width then t else PadStart([ZERO] + t, width)
  }

  function DigitOf(u: CodeUnit): (d: nat)
    requires IsOctalDigit(u)
    ensures d < 8
  {
    u - 0x30
  }

  /** Number.parseInt(text, 8) on octal digits. */
  function ParseOctal(t: Text): nat
    requires IsOctalText(t)
  {
    if t == [] then 0 else 8 * ParseOctal(t[..|t| - 1]) + DigitOf(t[|t| - 1])
  }

  lemma {:induction false} ParsePrinted(n: nat)
    ensures ParseOctal(OctalText(n)) == n
  {
    var t := OctalText(n);
    if n >= 8 {
      ParsePrinted(n / 8);
      assert t[..|t| - 1] == OctalText(n / 8);
    }
  }

  lemma {:induction false} LeadingZero(t: Text)
    requires IsOctalText(t)
    ensures ParseOctal([ZERO] + t) == ParseOctal(t)
  {
    var z := [ZERO] + t;
    if t != [] {
      LeadingZero(t[..|t| - 1]);
      assert z[..|z| - 1] == [ZERO] + t[..|t| - 1];
    }
  }

  lemma {:induction false} ParsePadded(t: Text, width: nat)
    requires IsOctalText(t)
    ensures ParseOctal(PadStart(t, width)) == ParseOctal(t)
    decreases width - |t|
  {
    if |t| < width {
      LeadingZero(t);
      ParsePadded([ZERO] + t, width);
    }
  }

  /** Parsing undoes printing at any width. */
  lemma OctalRoundTrip(n: nat, width: nat)
    ensures ParseOctal(PadStart(OctalText(n), width)) == n
  {
    ParsePrinted(n);
    ParsePadded(OctalText(n), width);
  }

  lemma LastDigitSplits(p: nat, d: nat, q: nat, f: nat)
    requires d < 8 && f < 8 && 8 * p + d == 8 * q + f
    ensures p == q && d == f
  {
  }

  lemma OctalFront(t: Text)
    requires t != [] && IsOctalText(t)
    ensures IsOctalText(t[..|t| - 1]) && IsOctalDigit(t[|t| - 1])
    ensures t == t[..|t| - 1] + [t[|t| - 1]]
  {
  }

  lemma {:induction false} FixedWidthIsInjective(a: Text, b: Text)
    requires IsOctalText(a) && IsOctalText(b) && |a| == |b|
    requires ParseOctal(a) == ParseOctal(b)
    ensures a == b
  {
    if a != [] {
      var n := |a| - 1;
      OctalFront(a);
      OctalFront(b);
      LastDigitSplits(ParseOctal(a[..n]), DigitOf(a[n]), ParseOctal(b[..n]), DigitOf(b[n]));
      FixedWidthIsInjective(a[..n], b[..n]);
    }
  }

  lemma PermissionBitsAreShort(n: nat)
    requires n < 0x200
    ensures |OctalText(n)| <= 3
  {
    if n >= 8 {
      var m := n / 8;
      assert OctalText(n) == OctalText(m) + [0x30 + n % 8];
      if m >= 8 {
        assert m / 8 < 8;
        assert OctalText(m) == OctalText(m / 8) + [0x30 + m % 8];
        assert |OctalText(m / 8)| == 1;
      }
    }
  }

  /** The text comparison of a file's permission bits with an index mode
      succeeds exactly when the index mode has four digits and that value. */
  lemma ModeTextMatches(bits: nat, mode: Text)
    requires bits < 0x200 && IsOctalText(mode)
    ensures PadStart(OctalText(bits), 4) == mode <==> |mode| == 4 && ParseOctal(mode) == bits
  {
    PermissionBitsAreShort(bits);
    OctalRoundTrip(bits, 4);
    if |mode| == 4 && ParseOctal(mode) == bits {
      FixedWidthIsInjective(PadStart(OctalText(bits), 4), mode);
    }
  }
}
