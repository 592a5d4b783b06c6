// The canonical JSON printer that signatures are computed over, a reader that
// undoes it, and the theorem that its text means exactly the printed value.
module CanonicalJson {
  import opened Sequences
  import opened Texts
  import opened Utf8
  import opened JsonText

  // A JSON value as JavaScript holds it: objects keep their insertion order.
  datatype Json =
    | Null
    | Bool(b: bool)
    | Num(n: int)
    | Str(s: Text)
    | Arr(items: seq<Json>)
    | Obj(fields: seq<Member>)

  datatype Member = Member(key: Text, value: Json)

  // What a JSON value means: the order of an object's fields is forgotten.
  datatype Value =
    | VNull
    | VBool(b: bool)
    | VNum(n: int)
    | VStr(s: Text)
    | VArr(items: seq<Value>)
    | VObj(fields: map<Text, Value>)

  function Keys(fields: seq<Member>): (ks: seq<Text>)
    ensures |ks| == |fields|
    ensures forall i :: 0 <= i < |ks| ==> ks[i] == fields[i].key
  {
    seq(|fields|, i requires 0 <= i < |fields| => fields[i].key)
  }

  predicate HasKey(fields: seq<Member>, k: Text) {
    exists i :: 0 <= i < |fields| && fields[i].key == k
  }

  function KeySet(fields: seq<Member>): (ks: set<Text>)
    ensures forall k :: k in ks <==> HasKey(fields, k)
  {
    set i | 0 <= i < |fields| :: fields[i].key
  }

  function Get(fields: seq<Member>, k: Text): (v: Json)
    requires HasKey(fields, k)
    ensures exists i :: 0 <= i < |fields| && fields[i] == Member(k, v)
  {
    if fields[0].key == k then
      assert fields[0] == Member(k, fields[0].value);
      fields[0].value
    else
      assert HasKey(fields[1..], k) by {
        var i :| 0 <= i < |fields| && fields[i].key == k;
        assert fields[1..][i - 1].key == k;
      }
      var v := Get(fields[1..], k);
      assert exists i :: 0 <= i < |fields| && fields[i] == Member(k, v) by {
        var i :| 0 <= i < |fields[1..]| && fields[1..][i] == Member(k, v);
        assert fields[i + 1] == Member(k, v);
      }
      v
  }

  predicate Has(v: Json, name: Text) {
    v.Obj? && HasKey(v.fields, name)
  }

  /** v.name, for names no prototype has; Null stands for undefined too. */
  function Field(v: Json, name: Text): Json {
    if Has(v, name) then Get(v.fields, name) else Null
  }

  /** Every object, at any depth, has distinct keys. */
  ghost predicate Wf(v: Json) {
    match v
    case Arr(items) => forall i :: 0 <= i < |items| ==> Wf(items[i])
    case Obj(fields) => Distinct(Keys(fields)) && forall i :: 0 <= i < |fields| ==> Wf(fields[i].value)
    case _ => true
  }

  function Meaning(v: Json): Value {
    match v
    case Null => VNull
    case Bool(b) => VBool(b)
    case Num(n) => VNum(n)
    case Str(s) => VStr(s)
    case Arr(items) => VArr(seq(|items|, i requires 0 <= i < |items| => Meaning(items[i])))
    case Obj(fields) => VObj(map k | k in KeySet(fields) :: Meaning(Get(fields, k)))
  }

  // ----- the printer -----

  const NULL_TEXT: Text := [0x6E, 0x75, 0x6C, 0x6C]
  const TRUE_TEXT: Text := [0x74, 0x72, 0x75, 0x65]
  const FALSE_TEXT: Text := [0x66, 0x61, 0x6C, 0x73, 0x65]
  const LBRACKET: CodeUnit := 0x5B
  const RBRACKET: CodeUnit := 0x5D
  const LBRACE: CodeUnit := 0x7B
  const RBRACE: CodeUnit := 0x7D

  function CanonicalText(v: Json): Text
    decreases v, 1
  {
    match v
    case Null => NULL_TEXT
    case Bool(b) => if b then TRUE_TEXT else FALSE_TEXT
    case Num(n) => Integer(n)
    case Str(s) => Quote(s)
    case Arr(items) => [LBRACKET] + PrintItems(items) + [RBRACKET]
    case Obj(fields) =>
      var ks := Sort(Keys(fields));
      SortedKeysPresent(fields);
      [LBRACE] + PrintMembers(ks, fields) + [RBRACE]
  }

  function PrintItems(items: seq<Json>): Text
    decreases items, 0
  {
    if items == [] then []
    else if |items| == 1 then CanonicalText(items[0])
    else CanonicalText(items[0]) + ([COMMA] + PrintItems(items[1..]))
  }

  function PrintMember(k: Text, fields: seq<Member>): Text
    requires HasKey(fields, k)
    decreases fields, 0, 0
  {
    Quote(k) + ([COLON] + CanonicalText(Get(fields, k)))
  }

  function PrintMembers(ks: seq<Text>, fields: seq<Member>): Text
    requires forall i :: 0 <= i < |ks| ==> HasKey(fields, ks[i])
    decreases fields, |ks| + 1
  {
    if ks == [] then []
    else if |ks| == 1 then PrintMember(ks[0], fields)
    else PrintMember(ks[0], fields) + ([COMMA] + PrintMembers(ks[1..], fields))
  }

  // JSON.stringify(value): the same, with every object's fields in their own order.
  function StringifyText(v: Json): Text
    decreases v, 1
  {
    match v
    case Arr(items) => [LBRACKET] + StringifyItems(items) + [RBRACKET]
    case Obj(fields) => [LBRACE] + StringifyMembers(fields) + [RBRACE]
    case _ => CanonicalText(v)
  }

  function StringifyItems(items: seq<Json>): Text
    decreases items, 0
  {
    if items == [] then []
    else if |items| == 1 then StringifyText(items[0])
    else StringifyText(items[0]) + ([COMMA] + StringifyItems(items[1..]))
  }

  function StringifyMembers(fields: seq<Member>): Text
    decreases fields, 0
  {
    if fields == [] then []
    else
      var first := Quote(fields[0].key) + ([COLON] + StringifyText(fields[0].value));
      if |fields| == 1 then first else first + ([COMMA] + StringifyMembers(fields[1..]))
  }

  lemma SortedKeysPresent(fields: seq<Member>)
    ensures forall i :: 0 <= i < |Sort(Keys(fields))| ==> HasKey(fields, Sort(Keys(fields))[i])
  {
    var ks := Sort(Keys(fields));
    forall i | 0 <= i < |ks| ensures HasKey(fields, ks[i]) {
      assert ks[i] in multiset(ks);
      assert ks[i] in Keys(fields);
    }
  }

  // ----- the reader -----

  function ReadValue(t: Text): (r: Parsed<Value>)
    ensures r.Got? ==> |r.rest| < |t|
    decreases |t|, 2
  {
    if t == [] then Fail
    else if StartsWith(t, NULL_TEXT) then Got(VNull, t[4..])
    else if StartsWith(t, TRUE_TEXT) then Got(VBool(true), t[4..])
    else if StartsWith(t, FALSE_TEXT) then Got(VBool(false), t[5..])
    else if t[0] == QUOTE then
      (match ReadUnits(t[1..])
       case Fail => Fail
       case Got(s, rest) => Got(VStr(s), rest))
    else if t[0] == LBRACKET then ReadArray(t[1..])
    else if t[0] == LBRACE then ReadObject(t[1..])
    else
      (match ReadInteger(t)
       case Fail => Fail
       case Got(n, rest) => Got(VNum(n), rest))
  }

  function ReadArray(t: Text): (r: Parsed<Value>)
    ensures r.Got? ==> |r.rest| < |t|
    decreases |t|, 4
  {
    if t != [] && t[0] == RBRACKET then Got(VArr([]), t[1..])
    else
      match ReadItems(t)
      case Fail => Fail
      case Got(vs, rest) => Got(VArr(vs), rest)
  }

  function ReadObject(t: Text): (r: Parsed<Value>)
    ensures r.Got? ==> |r.rest| < |t|
    decreases |t|, 4
  {
    if t != [] && t[0] == RBRACE then Got(VObj(map[]), t[1..])
    else
      match ReadMembers(t)
      case Fail => Fail
      case Got(m, rest) => Got(VObj(m), rest)
  }

  function ReadItems(t: Text): (r: Parsed<seq<Value>>)
    ensures r.Got? ==> |r.rest| < |t|
    decreases |t|, 3
  {
    match ReadValue(t)
    case Fail => Fail
    case Got(v, more) =>
      if more == [] then Fail
      else if more[0] == RBRACKET then Got([v], more[1..])
      else if more[0] != COMMA then Fail
      else
        match ReadItems(more[1..])
        case Fail => Fail
        case Got(vs, rest) => Got([v] + vs, rest)
  }

  function ReadMember(t: Text): (r: Parsed<(Text, Value)>)
    ensures r.Got? ==> |r.rest| < |t|
    decreases |t|, 2
  {
    if t == [] || t[0] != QUOTE then Fail
    else
      match ReadUnits(t[1..])
      case Fail => Fail
      case Got(k, more) =>
        if more == [] || more[0] != COLON then Fail
        else
          match ReadValue(more[1..])
          case Fail => Fail
          case Got(v, rest) => Got((k, v), rest)
  }

  function ReadMembers(t: Text): (r: Parsed<map<Text, Value>>)
    ensures r.Got? ==> |r.rest| < |t|
    decreases |t|, 3
  {
    match ReadMember(t)
    case Fail => Fail
    case Got(kv, more) =>
      if more == [] then Fail
      else if more[0] == RBRACE then Got(map[kv.0 := kv.1], more[1..])
      else if more[0] != COMMA then Fail
      else
        match ReadMembers(more[1..])
        case Fail => Fail
        case Got(m, rest) => Got(m[kv.0 := kv.1], rest)
  }

  // ----- reading undoes printing -----

  lemma TextStart(v: Json)
    ensures CanonicalText(v) != [] && CanonicalText(v)[0] != RBRACKET
  {
    if v.Num? {
      var digits := Decimal(if v.n < 0 then -v.n else v.n);
      assert digits[0] in digits;
    }
  }

  lemma ReadWord(rest: Text)
    ensures ReadValue(NULL_TEXT + rest) == Got(VNull, rest)
    ensures ReadValue(TRUE_TEXT + rest) == Got(VBool(true), rest)
    ensures ReadValue(FALSE_TEXT + rest) == Got(VBool(false), rest)
  {
    var n, t, f := NULL_TEXT + rest, TRUE_TEXT + rest, FALSE_TEXT + rest;
    assert n[..4] == NULL_TEXT && n[4..] == rest;
    assert t[..4] == TRUE_TEXT && t[4..] == rest && t[0] != NULL_TEXT[0];
    assert f[..5] == FALSE_TEXT && f[5..] == rest && f[0] != NULL_TEXT[0] && f[0] != TRUE_TEXT[0];
  }

  lemma ReadText(s: Text, rest: Text)
    ensures ReadValue(Quote(s) + rest) == Got(VStr(s), rest)
  {
    ReadQuoted(s, rest);
    SplitBrackets(QUOTE, QuoteUnits(s), QUOTE, rest);
    HeadAndTail(QUOTE, QuoteUnits(s) + ([QUOTE] + rest));
  }

  lemma ReadScalar(v: Json, rest: Text)
    requires !v.Arr? && !v.Obj?
    requires EndsNumber(rest)
    ensures ReadValue(CanonicalText(v) + rest) == Got(Meaning(v), rest)
  {
    match v
    case Num(n) => ReadNumber(n, rest);
    case Str(s) => ReadText(s, rest);
    case _ => ReadWord(rest);
  }

  lemma ReadNumber(n: int, rest: Text)
    requires EndsNumber(rest)
    ensures ReadValue(Integer(n) + rest) == Got(VNum(n), rest)
  {
    var t := Integer(n) + rest;
    var digits := Decimal(if n < 0 then -n else n);
    assert IsDigit(digits[0]) by { assert digits[0] in digits; }
    assert t[0] == Integer(n)[0];
    assert t[0] == MINUS || IsDigit(t[0]);
    ReadPrintedInteger(n, rest);
  }

  lemma SplitMember(k: Text, body: Text, rest: Text)
    ensures Quote(k) + ([COLON] + body) + rest
         == [QUOTE] + (QuoteUnits(k) + ([QUOTE] + ([COLON] + (body + rest))))
  {
    Assoc(Quote(k), [COLON] + body, rest);
    Assoc([COLON], body, rest);
    Assoc([QUOTE], QuoteUnits(k), [QUOTE]);
    Assoc([QUOTE], QuoteUnits(k) + [QUOTE], [COLON] + (body + rest));
    Assoc(QuoteUnits(k), [QUOTE], [COLON] + (body + rest));
  }

  lemma SplitList(first: Text, others: Text, rest: Text)
    ensures first + ([COMMA] + others) + rest == first + ([COMMA] + (others + rest))
  {
    Assoc(first, [COMMA] + others, rest);
    Assoc([COMMA], others, rest);
  }

  lemma SplitBrackets(open: CodeUnit, body: Text, close: CodeUnit, rest: Text)
    ensures [open] + body + [close] + rest == [open] + (body + ([close] + rest))
  {
    Assoc([open] + body, [close], rest);
    Assoc([open], body, [close] + rest);
  }

  lemma MeaningOfItems(items: seq<Json>)
    ensures items == [] ==> Meaning(Arr(items)).items == []
    ensures items != [] ==>
      Meaning(Arr(items)).items == [Meaning(items[0])] + Meaning(Arr(items[1..])).items
  {
  }

  lemma ReadOpened(body: Text)
    ensures ReadValue([LBRACKET] + body) == ReadArray(body)
    ensures ReadValue([LBRACE] + body) == ReadObject(body)
  {
    HeadAndTail(LBRACKET, body);
    HeadAndTail(LBRACE, body);
    assert NULL_TEXT[0] == 0x6E && TRUE_TEXT[0] == 0x74 && FALSE_TEXT[0] == 0x66;
  }

  /** The reader gives back the meaning of what the printer wrote, and the rest. */
  lemma {:induction false} ReadUndoesPrint(v: Json, rest: Text)
    requires Wf(v) && EndsNumber(rest)
    ensures ReadValue(CanonicalText(v) + rest) == Got(Meaning(v), rest)
    decreases v, 1
  {
    match v
    case Arr(items) =>
      SplitBrackets(LBRACKET, PrintItems(items), RBRACKET, rest);
      ReadOpened(PrintItems(items) + ([RBRACKET] + rest));
      ReadUndoesPrintArray(items, rest);
    case Obj(fields) =>
      SortedKeysPresent(fields);
      var ks := Sort(Keys(fields));
      SplitBrackets(LBRACE, PrintMembers(ks, fields), RBRACE, rest);
      ReadOpened(PrintMembers(ks, fields) + ([RBRACE] + rest));
      ReadUndoesPrintObject(fields, rest);
    case _ => ReadScalar(v, rest);
  }

  lemma {:induction false} ReadUndoesPrintArray(items: seq<Json>, rest: Text)
    requires forall i :: 0 <= i < |items| ==> Wf(items[i])
    ensures ReadArray(PrintItems(items) + ([RBRACKET] + rest)) == Got(Meaning(Arr(items)), rest)
    decreases items, 1
  {
    var t := PrintItems(items) + ([RBRACKET] + rest);
    if items == [] {
      assert t == [RBRACKET] + rest;
      HeadAndTail(RBRACKET, rest);
      MeaningOfItems(items);
    } else {
      TextStart(items[0]);
      assert t[0] == CanonicalText(items[0])[0];
      ReadUndoesPrintItems(items, rest);
    }
  }

  lemma {:induction false} ReadUndoesPrintItems(items: seq<Json>, rest: Text)
    requires items != []
    requires forall i :: 0 <= i < |items| ==> Wf(items[i])
    ensures ReadItems(PrintItems(items) + ([RBRACKET] + rest)) == Got(Meaning(Arr(items)).items, rest)
    decreases items, 0
  {
    if |items| == 1 {
      ReadUndoesPrint(items[0], [RBRACKET] + rest);
      HeadAndTail(RBRACKET, rest);
      MeaningOfItems(items);
      MeaningOfItems(items[1..]);
      assert [Meaning(items[0])] + [] == [Meaning(items[0])];
    } else {
      var others := PrintItems(items[1..]) + ([RBRACKET] + rest);
      SplitList(CanonicalText(items[0]), PrintItems(items[1..]), [RBRACKET] + rest);
      ReadUndoesPrint(items[0], [COMMA] + others);
      HeadAndTail(COMMA, others);
      ReadUndoesPrintItems(items[1..], rest);
      MeaningOfItems(items);
    }
  }

  ghost function MeaningOf(ks: seq<Text>, fields: seq<Member>): map<Text, Value>
    requires forall i :: 0 <= i < |ks| ==> HasKey(fields, ks[i])
  {
    map k | k in ks :: Meaning(Get(fields, k))
  }

  lemma MeaningOfCons(ks: seq<Text>, fields: seq<Member>)
    requires ks != []
    requires forall i :: 0 <= i < |ks| ==> HasKey(fields, ks[i])
    ensures MeaningOf(ks, fields) == MeaningOf(ks[1..], fields)[ks[0] := Meaning(Get(fields, ks[0]))]
  {
  }

  lemma SortedKeysAreKeySet(fields: seq<Member>, k: Text)
    ensures k in Sort(Keys(fields)) <==> k in KeySet(fields)
  {
    SameMultisetSameMembers(Sort(Keys(fields)), Keys(fields), k);
    KeysAreKeySet(fields, k);
  }

  lemma MeaningOfAllKeys(fields: seq<Member>)
    ensures (SortedKeysPresent(fields);
             MeaningOf(Sort(Keys(fields)), fields) == Meaning(Obj(fields)).fields)
  {
    forall k ensures k in Sort(Keys(fields)) <==> k in KeySet(fields) {
      SortedKeysAreKeySet(fields, k);
    }
  }

  lemma MembersStart(ks: seq<Text>, fields: seq<Member>)
    requires ks != []
    requires forall i :: 0 <= i < |ks| ==> HasKey(fields, ks[i])
    ensures PrintMembers(ks, fields) != [] && PrintMembers(ks, fields)[0] == QUOTE
  {
  }

  lemma {:induction false} ReadUndoesPrintObject(fields: seq<Member>, rest: Text)
    requires forall i :: 0 <= i < |fields| ==> Wf(fields[i].value)
    ensures (SortedKeysPresent(fields);
             ReadObject(PrintMembers(Sort(Keys(fields)), fields) + ([RBRACE] + rest))
             == Got(Meaning(Obj(fields)), rest))
    decreases fields, 1, 0
  {
    SortedKeysPresent(fields);
    MeaningOfAllKeys(fields);
    var ks := Sort(Keys(fields));
    var t := PrintMembers(ks, fields) + ([RBRACE] + rest);
    if ks == [] {
      assert t == [RBRACE] + rest;
      HeadAndTail(RBRACE, rest);
      assert MeaningOf(ks, fields) == map[];
    } else {
      MembersStart(ks, fields);
      HeadOfConcat(PrintMembers(ks, fields), [RBRACE] + rest);
      ReadUndoesPrintMembers(ks, fields, rest);
    }
  }

  lemma {:induction false} ReadUndoesPrintMember(k: Text, fields: seq<Member>, rest: Text)
    requires HasKey(fields, k)
    requires forall i :: 0 <= i < |fields| ==> Wf(fields[i].value)
    requires EndsNumber(rest)
    ensures ReadMember(PrintMember(k, fields) + rest) == Got((k, Meaning(Get(fields, k))), rest)
    decreases fields, 0, 0
  {
    var v := Get(fields, k);
    var more := [COLON] + (CanonicalText(v) + rest);
    SplitMember(k, CanonicalText(v), rest);
    HeadAndTail(QUOTE, QuoteUnits(k) + ([QUOTE] + more));
    ReadQuoted(k, more);
    HeadAndTail(COLON, CanonicalText(v) + rest);
    ReadUndoesPrint(v, rest);
  }

  lemma {:induction false} ReadUndoesPrintMembers(ks: seq<Text>, fields: seq<Member>, rest: Text)
    requires ks != []
    requires forall i :: 0 <= i < |ks| ==> HasKey(fields, ks[i])
    requires forall i :: 0 <= i < |fields| ==> Wf(fields[i].value)
    ensures ReadMembers(PrintMembers(ks, fields) + ([RBRACE] + rest)) == Got(MeaningOf(ks, fields), rest)
    decreases fields, 0, |ks|
  {
    if |ks| == 1 {
      ReadUndoesPrintMember(ks[0], fields, [RBRACE] + rest);
      HeadAndTail(RBRACE, rest);
      MeaningOfCons(ks, fields);
      assert MeaningOf(ks[1..], fields) == map[];
    } else {
      var others := PrintMembers(ks[1..], fields) + ([RBRACE] + rest);
      SplitList(PrintMember(ks[0], fields), PrintMembers(ks[1..], fields), [RBRACE] + rest);
      ReadUndoesPrintMember(ks[0], fields, [COMMA] + others);
      HeadAndTail(COMMA, others);
      ReadUndoesPrintMembers(ks[1..], fields, rest);
      MeaningOfCons(ks, fields);
    }
  }

  // ----- the printer only sees the meaning -----

  lemma {:induction false} SameMeaningSameText(v: Json, w: Json)
    requires Wf(v) && Wf(w) && Meaning(v) == Meaning(w)
    ensures CanonicalText(v) == CanonicalText(w)
    decreases v, 1
  {
    match v
    case Arr(items) => SameMeaningSameItems(items, w.items);
    case Obj(fields) =>
      SortedKeysPresent(fields);
      SortedKeysPresent(w.fields);
      SameKeysSortAlike(fields, w.fields);
      SameMeaningSameMembers(Sort(Keys(fields)), fields, w.fields);
    case _ =>
  }

  lemma SameKeysSortAlike(fields: seq<Member>, others: seq<Member>)
    requires Distinct(Keys(fields)) && Distinct(Keys(others))
    requires Meaning(Obj(fields)) == Meaning(Obj(others))
    ensures Sort(Keys(fields)) == Sort(Keys(others))
  {
    assert KeySet(fields) == Meaning(Obj(fields)).fields.Keys == KeySet(others);
    forall k ensures k in Keys(fields) <==> k in Keys(others) {
      KeysAreKeySet(fields, k);
      KeysAreKeySet(others, k);
    }
    DistinctListingsAgree(Keys(fields), Keys(others));
    SortedListingIsUnique(Sort(Keys(fields)), Sort(Keys(others)));
  }

  lemma KeysAreKeySet(fields: seq<Member>, k: Text)
    ensures k in Keys(fields) <==> k in KeySet(fields)
  {
    if HasKey(fields, k) {
      var i :| 0 <= i < |fields| && fields[i].key == k;
      assert Keys(fields)[i] == k;
    }
  }

  lemma {:induction false} SameMeaningSameItems(items: seq<Json>, others: seq<Json>)
    requires forall i :: 0 <= i < |items| ==> Wf(items[i])
    requires forall i :: 0 <= i < |others| ==> Wf(others[i])
    requires Meaning(Arr(items)) == Meaning(Arr(others))
    ensures PrintItems(items) == PrintItems(others)
    decreases items, 0
  {
    var a, b := Meaning(Arr(items)).items, Meaning(Arr(others)).items;
    assert |items| == |a| == |b| == |others|;
    if items != [] {
      MeaningOfItems(items);
      MeaningOfItems(others);
      assert a[0] == b[0] && a[1..] == b[1..];
      SameMeaningSameText(items[0], others[0]);
      SameMeaningSameItems(items[1..], others[1..]);
    }
  }

  lemma {:induction false} SameMeaningSameMembers(ks: seq<Text>, fields: seq<Member>, others: seq<Member>)
    requires forall i :: 0 <= i < |fields| ==> Wf(fields[i].value)
    requires forall i :: 0 <= i < |others| ==> Wf(others[i].value)
    requires Meaning(Obj(fields)) == Meaning(Obj(others))
    requires forall i :: 0 <= i < |ks| ==> HasKey(fields, ks[i]) && HasKey(others, ks[i])
    ensures PrintMembers(ks, fields) == PrintMembers(ks, others)
    decreases fields, 0, |ks|
  {
    if ks != [] {
      var k := ks[0];
      var m, n := Meaning(Obj(fields)).fields, Meaning(Obj(others)).fields;
      assert k in KeySet(fields) && k in KeySet(others);
      assert m[k] == Meaning(Get(fields, k)) && n[k] == Meaning(Get(others, k));
      SameMeaningSameText(Get(fields, k), Get(others, k));
      SameMeaningSameMembers(ks[1..], fields, others);
    }
  }

  // ----- the order of fields that is printed -----

  /** At every depth, each key sorts before the keys after it. */
  ghost predicate InOrder(v: Json) {
    match v
    case Arr(items) => forall i :: 0 <= i < |items| ==> InOrder(items[i])
    case Obj(fields) => Sorted(Keys(fields)) && forall i :: 0 <= i < |fields| ==> InOrder(fields[i].value)
    case _ => true
  }

  lemma {:induction false} GetAt(fields: seq<Member>, i: nat)
    requires i < |fields| && Distinct(Keys(fields))
    ensures HasKey(fields, fields[i].key) && Get(fields, fields[i].key) == fields[i].value
  {
    if i > 0 {
      assert Keys(fields)[0] != Keys(fields)[i];
      assert Keys(fields[1..]) == Keys(fields)[1..];
      GetAt(fields[1..], i - 1);
    }
  }

  /** A value whose keys are in code-unit order at every depth is printed with its
      fields as they stand, one after the other, with nothing between the tokens. */
  lemma {:induction false} InOrderPrintsInPlace(v: Json)
    requires Wf(v) && InOrder(v)
    ensures CanonicalText(v) == StringifyText(v)
    decreases v, 1
  {
    match v
    case Arr(items) => ItemsPrintInPlace(items);
    case Obj(fields) =>
      SortedKeysPresent(fields);
      SortedListingIsUnique(Sort(Keys(fields)), Keys(fields));
      assert Keys(fields)[0..] == Keys(fields) && fields[0..] == fields;
      MembersPrintInPlace(fields, 0);
    case _ =>
  }

  lemma {:induction false} ItemsPrintInPlace(items: seq<Json>)
    requires forall i :: 0 <= i < |items| ==> Wf(items[i]) && InOrder(items[i])
    ensures PrintItems(items) == StringifyItems(items)
    decreases items, 0
  {
    if items != [] {
      InOrderPrintsInPlace(items[0]);
      ItemsPrintInPlace(items[1..]);
    }
  }

  lemma {:induction false} MembersPrintInPlace(fields: seq<Member>, i: nat)
    requires i <= |fields| && Distinct(Keys(fields))
    requires forall j :: 0 <= j < |fields| ==> Wf(fields[j].value) && InOrder(fields[j].value)
    requires forall j :: 0 <= j < |fields| - i ==> HasKey(fields, Keys(fields)[i..][j])
    ensures PrintMembers(Keys(fields)[i..], fields) == StringifyMembers(fields[i..])
    decreases fields, 0, |fields| - i
  {
    if i < |fields| {
      var ks := Keys(fields)[i..];
      GetAt(fields, i);
      InOrderPrintsInPlace(fields[i].value);
      assert ks[1..] == Keys(fields)[i + 1..] && fields[i..][1..] == fields[i + 1..];
      MembersPrintInPlace(fields, i + 1);
    }
  }

  // ----- reading fields -----

  lemma {:induction false} GetPast(a: seq<Member>, m: Member, b: seq<Member>)
    requires !HasKey(a, m.key)
    ensures HasKey(a + [m] + b, m.key) && Get(a + [m] + b, m.key) == m.value
  {
    var all := a + [m] + b;
    assert all[|a|] == m;
    if a != [] {
      assert all[0] == a[0] && a[0].key != m.key;
      assert all[1..] == a[1..] + [m] + b;
      assert forall i :: 0 <= i < |a| - 1 ==> a[1..][i] == a[i + 1];
      GetPast(a[1..], m, b);
    }
  }

  /** A field read is the member of that name; what has none, an object or anything
      else, gives null. */
  lemma FieldExactly(a: seq<Member>, m: Member, b: seq<Member>, v: Json)
    ensures !HasKey(a, m.key) ==> Has(Obj(a + [m] + b), m.key) && Field(Obj(a + [m] + b), m.key) == m.value
    ensures !v.Obj? || (forall i :: 0 <= i < |v.fields| ==> v.fields[i].key != m.key) ==>
      !Has(v, m.key) && Field(v, m.key) == Null
  {
    if !HasKey(a, m.key) { GetPast(a, m, b); }
  }

  // ----- the main results -----

  /** Two JSON values print alike exactly when they mean the same: the text
      forgets the order of fields at every depth, and nothing else. */
  lemma TextDeterminesMeaning(v: Json, w: Json)
    requires Wf(v) && Wf(w)
    ensures CanonicalText(v) == CanonicalText(w) <==> Meaning(v) == Meaning(w)
  {
    if CanonicalText(v) == CanonicalText(w) {
      ReadUndoesPrint(v, []);
      ReadUndoesPrint(w, []);
    } else if Meaning(v) == Meaning(w) {
      SameMeaningSameText(v, w);
    }
  }

  /** Canonical text never holds a lone surrogate, so encoding it loses nothing. */
  lemma {:induction false} TextIsWellFormed(v: Json)
    ensures WellFormed(CanonicalText(v))
    decreases v, 1
  {
    match v
    case Str(s) => QuoteIsWellFormed(s);
    case Arr(items) =>
      ItemsAreWellFormed(items);
      Bracketed(LBRACKET, PrintItems(items), RBRACKET);
    case Obj(fields) =>
      SortedKeysPresent(fields);
      var ks := Sort(Keys(fields));
      MembersAreWellFormed(ks, fields);
      Bracketed(LBRACE, PrintMembers(ks, fields), RBRACE);
    case _ => PlainIsWellFormed(CanonicalText(v));
  }

  lemma QuoteIsWellFormed(s: Text)
    ensures WellFormed(Quote(s))
  {
    QuotedIsWellFormed(s);
    Bracketed(QUOTE, QuoteUnits(s), QUOTE);
  }

  lemma Bracketed(open: CodeUnit, body: Text, close: CodeUnit)
    requires WellFormed(body) && !IsSurrogate(open) && !IsSurrogate(close)
    ensures WellFormed([open] + body + [close])
  {
    PlainIsWellFormed([open]);
    PlainIsWellFormed([close]);
    WellFormedConcat([open], body);
    WellFormedConcat([open] + body, [close]);
  }

  lemma Separated(first: Text, mark: CodeUnit, others: Text)
    requires WellFormed(first) && WellFormed(others) && !IsSurrogate(mark)
    ensures WellFormed(first + ([mark] + others))
  {
    PlainIsWellFormed([mark]);
    WellFormedConcat([mark], others);
    WellFormedConcat(first, [mark] + others);
  }

  lemma {:induction false} ItemsAreWellFormed(items: seq<Json>)
    ensures WellFormed(PrintItems(items))
    decreases items, 0
  {
    if items != [] {
      TextIsWellFormed(items[0]);
      ItemsAreWellFormed(items[1..]);
      Separated(CanonicalText(items[0]), COMMA, PrintItems(items[1..]));
    }
  }

  lemma {:induction false} MembersAreWellFormed(ks: seq<Text>, fields: seq<Member>)
    requires forall i :: 0 <= i < |ks| ==> HasKey(fields, ks[i])
    ensures WellFormed(PrintMembers(ks, fields))
    decreases fields, 0, |ks|
  {
    if ks != [] {
      var body := CanonicalText(Get(fields, ks[0]));
      QuoteIsWellFormed(ks[0]);
      TextIsWellFormed(Get(fields, ks[0]));
      Separated(Quote(ks[0]), COLON, body);
      MembersAreWellFormed(ks[1..], fields);
      Separated(PrintMember(ks[0], fields), COMMA, PrintMembers(ks[1..], fields));
    }
  }

  /** The bytes that are hashed or signed determine the meaning of the value. */
  lemma BytesDetermineMeaning(v: Json, w: Json)
    requires Wf(v) && Wf(w)
    ensures ToBytes(CanonicalText(v)) == ToBytes(CanonicalText(w)) <==> Meaning(v) == Meaning(w)
  {
    TextDeterminesMeaning(v, w);
    if ToBytes(CanonicalText(v)) == ToBytes(CanonicalText(w)) {
      TextIsWellFormed(v);
      TextIsWellFormed(w);
      BytesDetermineWellFormedText(CanonicalText(v), CanonicalText(w));
    }
  }

  // ----- values that mean the same -----

  function Elements(v: Json): seq<Json> {
    if v.Arr? then v.items else []
  }

  ghost predicate Alike(v: Json, w: Json) {
    Wf(v) && Wf(w) && Meaning(v) == Meaning(w)
  }

  ghost predicate AllAlike(a: seq<Json>, b: seq<Json>) {
    |a| == |b| && forall i :: 0 <= i < |a| ==> Alike(a[i], b[i])
  }

  lemma FieldIsWf(v: Json, name: Text)
    requires Wf(v)
    ensures Wf(Field(v, name))
  {
    if Has(v, name) {
      var i :| 0 <= i < |v.fields| && v.fields[i] == Member(name, Get(v.fields, name));
    }
  }

  lemma AlikeElements(v: Json, w: Json)
    requires Alike(v, w)
    ensures AllAlike(Elements(v), Elements(w))
  {
    if v.Arr? {
      var a, b := v.items, w.items;
      assert Meaning(v).items == Meaning(w).items;
      assert |a| == |Meaning(v).items| == |b|;
      forall i | 0 <= i < |a| ensures Alike(a[i], b[i]) {
        assert Meaning(v).items[i] == Meaning(a[i]) && Meaning(w).items[i] == Meaning(b[i]);
      }
    }
  }

  lemma AlikeFields(v: Json, w: Json, name: Text)
    requires Alike(v, w)
    ensures Has(v, name) <==> Has(w, name)
    ensures Alike(Field(v, name), Field(w, name))
  {
    if v.Obj? {
      assert Meaning(v).fields.Keys == KeySet(v.fields) && Meaning(w).fields.Keys == KeySet(w.fields);
      if Has(v, name) {
        assert Meaning(v).fields[name] == Meaning(Get(v.fields, name));
        assert Meaning(w).fields[name] == Meaning(Get(w.fields, name));
        FieldIsWf(v, name);
        FieldIsWf(w, name);
      }
    }
  }
}
