// The scalar texts of canonical JSON: quoted strings and integers, with the
// readers that undo them.
module JsonText {
  import opened Sequences
  import opened Texts
  import opened Utf8

  // The outcome of reading a prefix of a text: the value read and what is left.
  datatype Parsed<+T> = Fail | Got(value: T, rest: Text)

  // ----- strings: JSON.stringify on a string -----

  function HexDigit(d: int): CodeUnit
    requires 0 <= d < 16
  {
    if d < 10 then 0x30 + d else 0x61 + (d - 10)
  }

  function HexValue(u: CodeUnit): (r: Option<int>)
    ensures r.Some? ==> 0 <= r.value < 0x10
  {
    if IsDigit(u) then Some(u - 0x30)
    else if 0x61 <= u <= 0x66 then Some(u - 0x61 + 10)
    else if 0x41 <= u <= 0x46 then Some(u - 0x41 + 10)
    else None
  }

  function UnicodeEscape(u: CodeUnit): Text {
    [BACKSLASH, 0x75, HexDigit(u / 0x1000), HexDigit(u / 0x100 % 0x10), HexDigit(u / 0x10 % 0x10), HexDigit(u % 0x10)]
  }

  /** One unit of a string that is not half of a surrogate pair. */
  function QuoteUnit(u: CodeUnit): Text {
    if u == 0x08 then [BACKSLASH, 0x62]
    else if u == 0x09 then [BACKSLASH, 0x74]
    else if u == 0x0A then [BACKSLASH, 0x6E]
    else if u == 0x0C then [BACKSLASH, 0x66]
    else if u == 0x0D then [BACKSLASH, 0x72]
    else if u == QUOTE || u == BACKSLASH then [BACKSLASH, u]
    else if u < 0x20 || IsSurrogate(u) then UnicodeEscape(u)
    else [u]
  }

  /** Surrogate pairs stay as they are; a lone surrogate is escaped. */
  function QuoteUnits(s: Text): Text {
    if s == [] then []
    else if StartsWithPair(s) then s[..2] + QuoteUnits(s[2..])
    else QuoteUnit(s[0]) + QuoteUnits(s[1..])
  }

  function Quote(s: Text): Text {
    [QUOTE] + QuoteUnits(s) + [QUOTE]
  }

  function ReadHex4(t: Text): Option<CodeUnit>
    requires |t| >= 4
  {
    match (HexValue(t[0]), HexValue(t[1]), HexValue(t[2]), HexValue(t[3]))
    case (Some(a), Some(b), Some(c), Some(d)) => Some(a * 0x1000 + b * 0x100 + c * 0x10 + d)
    case _ => None
  }

  function ReadUnit(t: Text): (r: Parsed<CodeUnit>)
    ensures r.Got? ==> |r.rest| < |t|
  {
    if t == [] || t[0] < 0x20 || t[0] == QUOTE then Fail
    else if t[0] != BACKSLASH then Got(t[0], t[1..])
    else if |t| < 2 then Fail
    else
      var u := t[1];
      if u == 0x62 then Got(0x08, t[2..])
      else if u == 0x74 then Got(0x09, t[2..])
      else if u == 0x6E then Got(0x0A, t[2..])
      else if u == 0x66 then Got(0x0C, t[2..])
      else if u == 0x72 then Got(0x0D, t[2..])
      else if u == QUOTE || u == BACKSLASH || u == SLASH then Got(u, t[2..])
      else if u == 0x75 && |t| >= 6 && ReadHex4(t[2..6]).Some? then Got(ReadHex4(t[2..6]).value, t[6..])
      else Fail
  }

  /** The rest of a string, up to and including its closing quote. */
  function ReadUnits(t: Text): (r: Parsed<Text>)
    ensures r.Got? ==> |r.rest| < |t|
    decreases |t|
  {
    if t != [] && t[0] == QUOTE then Got([], t[1..])
    else
      match ReadUnit(t)
      case Fail => Fail
      case Got(u, more) =>
        match ReadUnits(more)
        case Fail => Fail
        case Got(s, rest) => Got([u] + s, rest)
  }

  lemma ReadQuotedUnit(u: CodeUnit, rest: Text)
    ensures ReadUnit(QuoteUnit(u) + rest) == Got(u, rest)
  {
    var t := QuoteUnit(u) + rest;
    if |QuoteUnit(u)| == 6 {
      assert t[2..6] == UnicodeEscape(u)[2..6];
      assert t[6..] == rest;
      HexRoundTrip(u);
    } else if |QuoteUnit(u)| == 2 {
      assert t[2..] == rest;
    } else {
      assert t[1..] == rest;
    }
  }

  lemma HexRoundTrip(u: CodeUnit)
    ensures ReadHex4(UnicodeEscape(u)[2..6]) == Some(u)
  {
    var d := UnicodeEscape(u)[2..6];
    assert HexValue(d[0]) == Some(u / 0x1000) && HexValue(d[1]) == Some(u / 0x100 % 0x10);
    assert HexValue(d[2]) == Some(u / 0x10 % 0x10) && HexValue(d[3]) == Some(u % 0x10);
    assert u / 0x100 == u / 0x10 / 0x10 && u / 0x1000 == u / 0x100 / 0x10;
  }

  /** A surrogate pair reads back as its two halves. */
  lemma ReadPair(lead: CodeUnit, trail: CodeUnit, more: Text)
    requires IsLead(lead) && IsTrail(trail)
    requires ReadUnits(more).Got?
    ensures ReadUnits([lead] + ([trail] + more))
         == Got([lead] + ([trail] + ReadUnits(more).value), ReadUnits(more).rest)
  {
    HeadAndTail(lead, [trail] + more);
    HeadAndTail(trail, more);
  }

  lemma ReadSingle(u: CodeUnit, more: Text)
    requires ReadUnits(more).Got?
    ensures ReadUnits(QuoteUnit(u) + more) == Got([u] + ReadUnits(more).value, ReadUnits(more).rest)
  {
    ReadQuotedUnit(u, more);
    HeadOfConcat(QuoteUnit(u), more);
  }

  lemma QuotedPair(s: Text, end: Text)
    requires StartsWithPair(s)
    ensures QuoteUnits(s) + end == [s[0]] + ([s[1]] + (QuoteUnits(s[2..]) + end))
    ensures s == [s[0]] + ([s[1]] + s[2..])
  {
    assert s[..2] == [s[0]] + [s[1]];
    Assoc(s[..2], QuoteUnits(s[2..]), end);
    Assoc([s[0]], [s[1]], QuoteUnits(s[2..]) + end);
  }

  lemma QuotedSingle(s: Text, end: Text)
    requires s != [] && !StartsWithPair(s)
    ensures QuoteUnits(s) + end == QuoteUnit(s[0]) + (QuoteUnits(s[1..]) + end)
    ensures s == [s[0]] + s[1..]
  {
    Assoc(QuoteUnit(s[0]), QuoteUnits(s[1..]), end);
  }

  /** Reading undoes quoting, whatever follows. */
  lemma {:induction false} ReadQuoted(s: Text, rest: Text)
    ensures ReadUnits(QuoteUnits(s) + ([QUOTE] + rest)) == Got(s, rest)
  {
    var end := [QUOTE] + rest;
    if s == [] {
      assert QuoteUnits(s) + end == end;
      HeadAndTail(QUOTE, rest);
    } else if StartsWithPair(s) {
      ReadQuoted(s[2..], rest);
      QuotedPair(s, end);
      ReadPair(s[0], s[1], QuoteUnits(s[2..]) + end);
    } else {
      ReadQuoted(s[1..], rest);
      QuotedSingle(s, end);
      ReadSingle(s[0], QuoteUnits(s[1..]) + end);
    }
  }

  /** A quoted string holds no lone surrogate, whatever the string held. */
  lemma {:induction false} QuotedIsWellFormed(s: Text)
    ensures WellFormed(QuoteUnits(s))
  {
    if s == [] {
    } else if StartsWithPair(s) {
      QuotedIsWellFormed(s[2..]);
      assert s[..2][2..] == [];
      WellFormedConcat(s[..2], QuoteUnits(s[2..]));
    } else {
      QuotedIsWellFormed(s[1..]);
      PlainIsWellFormed(QuoteUnit(s[0]));
      WellFormedConcat(QuoteUnit(s[0]), QuoteUnits(s[1..]));
    }
  }

  // ----- the one spelling that is printed -----

  /** Text of units from the space on, without quotes, backslashes and lone
      surrogates, is printed as it is. */
  lemma {:induction false} PlainTextPrintsAsItself(s: Text)
    requires WellFormed(s) && forall u :: u in s ==> u >= 0x20 && u != 0x22 && u != 0x5C
    ensures QuoteUnits(s) == s && Quote(s) == [0x22] + s + [0x22]
  {
    if s == [] {
    } else if StartsWithPair(s) {
      assert forall u :: u in s[2..] ==> u in s;
      PlainTextPrintsAsItself(s[2..]);
      assert s == s[..2] + s[2..];
    } else {
      assert forall u :: u in s[1..] ==> u in s;
      PlainTextPrintsAsItself(s[1..]);
      assert s[0] in s && s == [s[0]] + s[1..];
    }
  }

  // Escapes \u in the rest of a string, read unit by unit, have lower-case digits.
  predicate LowerEscapes(t: Text) {
    if t == [] || t[0] == QUOTE then true
    else if t[0] == BACKSLASH && |t| >= 6 && t[1] == 0x75 then
      (forall i :: 2 <= i < 6 ==> !(0x41 <= t[i] <= 0x46)) && LowerEscapes(t[6..])
    else if t[0] == BACKSLASH && |t| >= 2 then LowerEscapes(t[2..])
    else LowerEscapes(t[1..])
  }

  // Putting a unit in front never costs more than the unit, and less when it
  // completes a pair.
  lemma PrependCost(u: CodeUnit, s: Text)
    ensures if StartsWithPair([u] + s) then |QuoteUnits([u] + s)| < |QuoteUnit(u)| + |QuoteUnits(s)|
      else QuoteUnits([u] + s) == QuoteUnit(u) + QuoteUnits(s)
  {
    HeadAndTail(u, s);
    if StartsWithPair([u] + s) {
      assert ([u] + s)[2..] == s[1..];
      assert QuoteUnits(s) == QuoteUnit(s[0]) + QuoteUnits(s[1..]);
    }
  }

  lemma {:induction false} WellFormedLater(t: Text, k: nat)
    requires WellFormed(t) && k <= |t| && forall i :: 0 <= i < k ==> t[i] < 0x80
    ensures WellFormed(t[k..])
  {
    if k > 0 {
      WellFormedLater(t[1..], k - 1);
      assert t[1..][k - 1..] == t[k..];
    } else {
      assert t[0..] == t;
    }
  }

  // What a unit is spelled with, when it is read off the front of a text.
  function SpellingLength(t: Text): nat {
    if ReadUnit(t).Got? then |t| - |ReadUnit(t).rest| else 0
  }

  lemma SpellingIsLeast(t: Text)
    requires ReadUnit(t).Got? && t != [] && !IsSurrogate(t[0])
    ensures var u, n := ReadUnit(t).value, SpellingLength(t);
      && n <= |t| && ReadUnit(t).rest == t[n..] && |QuoteUnit(u)| <= n
      && (forall i :: 0 <= i < n && n > 1 ==> t[i] < 0x80)
      && (n == 1 ==> t[0] == u)
      && (n == |QuoteUnit(u)| && n < 6 ==> t[..n] == QuoteUnit(u))
  {
  }

  lemma SixIsLower(t: Text)
    requires ReadUnit(t).Got? && SpellingLength(t) == 6 && |QuoteUnit(ReadUnit(t).value)| == 6 && LowerEscapes(t)
    ensures t[..6] == QuoteUnit(ReadUnit(t).value)
  {
    var u, d := ReadUnit(t).value, t[2..6];
    assert ReadHex4(d) == Some(u);
    LowerDigit(d[0]);
    LowerDigit(d[1]);
    LowerDigit(d[2]);
    LowerDigit(d[3]);
    FourDigits(HexValue(d[0]).value, HexValue(d[1]).value, HexValue(d[2]).value, HexValue(d[3]).value, u);
    assert t[..6] == [t[0], t[1], d[0], d[1], d[2], d[3]];
  }

  lemma LowerDigit(u: CodeUnit)
    requires HexValue(u).Some? && !(0x41 <= u <= 0x46)
    ensures HexDigit(HexValue(u).value) == u
  {
  }

  lemma FourDigits(a: int, b: int, c: int, d: int, u: int)
    requires 0 <= a < 16 && 0 <= b < 16 && 0 <= c < 16 && 0 <= d < 16
    requires u == a * 0x1000 + b * 0x100 + c * 0x10 + d
    ensures u / 0x1000 == a && u / 0x100 % 0x10 == b && u / 0x10 % 0x10 == c && u % 0x10 == d
  {
    assert u / 0x10 == a * 0x100 + b * 0x10 + c;
    assert u / 0x100 == a * 0x10 + b;
  }

  /** Among all well-formed texts that read as a string, the printed one is the
      shortest, and of those as short the only one whose escapes are in lower case. */
  lemma {:induction false} QuoteIsLeast(t: Text, s: Text)
    requires ReadUnits(t) == Got(s, []) && WellFormed(t)
    ensures |QuoteUnits(s) + [QUOTE]| <= |t|
    ensures |t| == |QuoteUnits(s) + [QUOTE]| && LowerEscapes(t) ==> t == QuoteUnits(s) + [QUOTE]
    decreases |t|, 1
  {
    if t[0] == QUOTE {
      assert t == [QUOTE] + t[1..];
    } else if StartsWithPair(t) {
      PairIsLeast(t, s);
    } else {
      var u, n := ReadUnit(t).value, SpellingLength(t);
      SpellingIsLeast(t);
      var more, s' := t[n..], ReadUnits(t[n..]).value;
      if n > 1 { WellFormedLater(t, n); }
      QuoteIsLeast(more, s');
      PrependCost(u, s');
      if |t| == |QuoteUnits(s) + [QUOTE]| && LowerEscapes(t) {
        LowerLater(t);
        if n == 6 { SixIsLower(t); }
        assert t == t[..n] + more;
        Assoc(QuoteUnit(u), QuoteUnits(s'), [QUOTE]);
      }
    }
  }

  lemma LowerLater(t: Text)
    requires ReadUnit(t).Got? && LowerEscapes(t) && !StartsWithPair(t)
    ensures LowerEscapes(ReadUnit(t).rest)
  {
  }

  lemma ReadThroughPair(t: Text, s: Text)
    requires ReadUnits(t) == Got(s, []) && StartsWithPair(t)
    ensures ReadUnits(t[2..]).Got? && ReadUnits(t[2..]).rest == []
    ensures s == [t[0]] + ([t[1]] + ReadUnits(t[2..]).value)
  {
    assert t[1..][1..] == t[2..];
    assert ReadUnit(t) == Got(t[0], t[1..]) && ReadUnit(t[1..]) == Got(t[1], t[2..]);
    assert ReadUnits(t[1..]).Got?;
  }

  lemma QuotePair(a: CodeUnit, b: CodeUnit, s: Text)
    requires IsLead(a) && IsTrail(b)
    ensures QuoteUnits([a] + ([b] + s)) == [a] + ([b] + QuoteUnits(s))
  {
    var t := [a] + ([b] + s);
    assert t[..2] == [a, b] && t[2..] == s;
    assert [a, b] + QuoteUnits(s) == [a] + ([b] + QuoteUnits(s));
  }

  lemma {:induction false} PairIsLeast(t: Text, s: Text)
    requires ReadUnits(t) == Got(s, []) && WellFormed(t) && StartsWithPair(t)
    ensures |QuoteUnits(s) + [QUOTE]| <= |t|
    ensures |t| == |QuoteUnits(s) + [QUOTE]| && LowerEscapes(t) ==> t == QuoteUnits(s) + [QUOTE]
    decreases |t|, 0
  {
    ReadThroughPair(t, s);
    var more, s' := t[2..], ReadUnits(t[2..]).value;
    QuoteIsLeast(more, s');
    QuotePair(t[0], t[1], s');
    if |t| == |QuoteUnits(s) + [QUOTE]| && LowerEscapes(t) {
      assert t[1..][1..] == more;
      assert LowerEscapes(t[1..]) && LowerEscapes(more);
      assert t == [t[0]] + ([t[1]] + more);
    }
  }

  // ----- integers -----

  function Decimal(n: nat): (t: Text)
    ensures t != [] && forall u :: u in t ==> IsDigit(u)
  {
    if n < 10 then [0x30 + n] else Decimal(n / 10) + [0x30 + n % 10]
  }

  function Integer(n: int): Text {
    if n < 0 then [MINUS] + Decimal(-n) else Decimal(n)
  }

  function DigitRun(t: Text): (k: nat)
    ensures k <= |t| && forall i :: 0 <= i < k ==> IsDigit(t[i])
  {
    if t != [] && IsDigit(t[0]) then 1 + DigitRun(t[1..]) else 0
  }

  function DigitValue(u: CodeUnit): nat
    requires IsDigit(u)
  {
    u - 0x30
  }

  function DigitsValue(t: Text): nat
    requires forall u :: u in t ==> IsDigit(u)
  {
    if t == [] then 0 else DigitsValue(t[..|t| - 1]) * 10 + DigitValue(t[|t| - 1])
  }

  function ReadNatural(t: Text): (r: Parsed<nat>)
    ensures r.Got? ==> |r.rest| < |t|
  {
    var k := DigitRun(t);
    if k == 0 then Fail else Got(DigitsValue(t[..k]), t[k..])
  }

  function ReadInteger(t: Text): (r: Parsed<int>)
    ensures r.Got? ==> |r.rest| < |t|
  {
    if t != [] && t[0] == MINUS then
      var r := ReadNatural(t[1..]);
      if r.Fail? then Fail else Got(0 - r.value as int, r.rest)
    else
      ReadNatural(t)
  }

  /** What may follow an integer: nothing that would extend it. */
  predicate EndsNumber(rest: Text) {
    rest == [] || !IsDigit(rest[0])
  }

  lemma {:induction false} DigitRunStops(digits: Text, rest: Text)
    requires forall u :: u in digits ==> IsDigit(u)
    requires EndsNumber(rest)
    ensures DigitRun(digits + rest) == |digits|
  {
    if digits == [] {
      assert digits + rest == rest;
    } else {
      DigitRunStops(digits[1..], rest);
      assert (digits + rest)[1..] == digits[1..] + rest;
    }
  }

  lemma {:induction false} DecimalValue(n: nat)
    ensures DigitsValue(Decimal(n)) == n
  {
    var t := Decimal(n);
    if n >= 10 {
      DecimalValue(n / 10);
      assert t[..|t| - 1] == Decimal(n / 10);
    } else {
      assert t[..|t| - 1] == [];
    }
  }

  lemma ReadDecimal(n: nat, rest: Text)
    requires EndsNumber(rest)
    ensures ReadNatural(Decimal(n) + rest) == Got(n, rest)
  {
    DigitRunStops(Decimal(n), rest);
    DecimalValue(n);
    assert (Decimal(n) + rest)[..|Decimal(n)|] == Decimal(n);
    assert (Decimal(n) + rest)[|Decimal(n)|..] == rest;
  }

  lemma ReadPrintedInteger(n: int, rest: Text)
    requires EndsNumber(rest)
    ensures ReadInteger(Integer(n) + rest) == Got(n, rest)
  {
    if n < 0 {
      ReadDecimal(-n, rest);
      Assoc([MINUS], Decimal(-n), rest);
      HeadAndTail(MINUS, Decimal(-n) + rest);
    } else {
      ReadDecimal(n, rest);
      HeadOfConcat(Decimal(n), rest);
      assert Decimal(n)[0] in Decimal(n);
    }
  }

  // ----- the one numeral that is printed -----

  lemma {:induction false} NoLeadingZero(n: nat)
    ensures Decimal(n)[0] == 0x30 ==> n == 0 && Decimal(n) == [0x30]
  {
    if n >= 10 { NoLeadingZero(n / 10); }
  }

  /** Of all the ways to write a number in digits, the printed one is the shortest,
      and the only one as short. */
  lemma {:induction false} DecimalIsLeast(t: Text, n: nat)
    requires t != [] && (forall u :: u in t ==> IsDigit(u)) && DigitsValue(t) == n
    ensures |Decimal(n)| <= |t| && (|t| == |Decimal(n)| ==> t == Decimal(n))
  {
    var k := |t| - 1;
    var front, d := t[..k], DigitValue(t[k]);
    assert t == front + [t[k]];
    LastDecimal(DigitsValue(front), d, n);
    if front == [] {
      assert n == d;
    } else {
      DecimalIsLeast(front, n / 10);
      if n < 10 { assert DigitsValue(front) == 0; }
    }
  }

  /** The printed integer is the shortest text that reads as it, and the only one as short. */
  lemma IntegerIsLeast(t: Text, n: int)
    requires ReadInteger(t) == Got(n, [])
    ensures |Integer(n)| <= |t| && (|t| == |Integer(n)| ==> t == Integer(n))
  {
    if t[0] == MINUS {
      assert t == [MINUS] + t[1..] && t[1..][..|t| - 1] == t[1..];
      DecimalIsLeast(t[1..], -n);
    } else {
      assert t[..|t|] == t;
      DecimalIsLeast(t, n);
    }
  }

  lemma LastDecimal(p: nat, d: nat, n: nat)
    requires d < 10 && n == p * 10 + d
    ensures n / 10 == p && n % 10 == d
  {
  }
}
