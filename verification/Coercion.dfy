// String(value) of a parsed JSON value, which may throw.
module Coercion {
  import opened Sequences
  import opened Texts
  import opened JsonText
  import opened CanonicalJson

  // What a JavaScript expression does: yield a value or throw.
  datatype Attempt<+T> = Done(value: T) | Throws {
    predicate IsFailure() { Throws? }

    function PropagateFailure<U>(): Attempt<U>
      requires IsFailure()
    {
      Throws
    }

    function Extract(): T
      requires !IsFailure()
    {
      value
    }
  }

  // ----- String(value) of a parsed JSON value -----

  const TO_STRING := Lit("toString")

  /** String(value). An own toString field of a parsed object is never callable,
      and then no primitive can be had from the object. */
  function TextFrom(v: Json): Attempt<Text>
    decreases v, 1
  {
    match v
    case Null => Done(NULL_TEXT)
    case Bool(b) => Done(if b then TRUE_TEXT else FALSE_TEXT)
    case Num(n) => Done(Integer(n))
    case Str(s) => Done(s)
    case Arr(items) => JoinFrom(items)
    case Obj(fields) => if HasKey(fields, TO_STRING) then Throws else Done(Lit("[object Object]"))
  }

  /** items.join(","), where null leaves an empty place. */
  function JoinFrom(items: seq<Json>): Attempt<Text>
    decreases items, 0
  {
    if items == [] then Done([])
    else
      var first :- if items[0].Null? then Done([]) else TextFrom(items[0]);
      if |items| == 1 then Done(first)
      else
        var rest :- JoinFrom(items[1..]);
        Done(first + [COMMA] + rest)
  }

  // ----- when it throws -----

  /** No object with an own toString field is met. */
  predicate Printable(v: Json) {
    match v
    case Arr(items) => forall i :: 0 <= i < |items| ==> Printable(items[i])
    case Obj(fields) => !HasKey(fields, TO_STRING)
    case _ => true
  }

  predicate AllPrintable(items: seq<Json>) {
    forall i :: 0 <= i < |items| ==> Printable(items[i])
  }

  /** A value has a text exactly when it is printable. */
  lemma {:induction false} TextExactly(v: Json)
    ensures TextFrom(v).Done? <==> Printable(v)
    decreases v, 1
  {
    if v.Arr? { JoinExactly(v.items); }
  }

  lemma {:induction false} JoinExactly(items: seq<Json>)
    ensures JoinFrom(items).Done? <==> AllPrintable(items)
    decreases items, 0
  {
    if items != [] {
      TextExactly(items[0]);
      JoinExactly(items[1..]);
      assert AllPrintable(items) <==> Printable(items[0]) && AllPrintable(items[1..]) by {
        assert forall i :: 0 <= i < |items| - 1 ==> items[1..][i] == items[i + 1];
      }
    }
  }

  // ----- it depends on what the value means -----

  lemma {:induction false} AlikeTexts(v: Json, w: Json)
    requires Alike(v, w)
    ensures TextFrom(v) == TextFrom(w)
    decreases v, 1
  {
    match v
    case Arr(items) =>
      AlikeElements(v, w);
      AlikeJoins(items, w.items);
    case Obj(fields) => AlikeFields(v, w, TO_STRING);
    case _ =>
  }

  lemma {:induction false} AlikeJoins(a: seq<Json>, b: seq<Json>)
    requires AllAlike(a, b)
    ensures JoinFrom(a) == JoinFrom(b)
    decreases a, 0
  {
    if a != [] {
      AlikeTexts(a[0], b[0]);
      AlikeJoins(a[1..], b[1..]);
    }
  }

  // ----- which text it is -----

  /** The text of a value that is no array. */
  lemma ScalarTexts(s: Text, n: int, fields: seq<Member>)
    ensures TextFrom(Null) == Done(Lit("null"))
    ensures TextFrom(Bool(true)) == Done(Lit("true")) && TextFrom(Bool(false)) == Done(Lit("false"))
    ensures TextFrom(Str(s)) == Done(s) && TextFrom(Num(n)) == Done(CanonicalText(Num(n)))
    ensures TextFrom(Obj(fields)) == if HasKey(fields, Lit("toString")) then Throws else Done(Lit("[object Object]"))
  {
    assert NULL_TEXT == Lit("null") && TRUE_TEXT == Lit("true") && FALSE_TEXT == Lit("false");
  }

  /** The text of one item, where null and nothing leave an empty place. */
  lemma SingleItemText(v: Json)
    ensures TextFrom(Arr([])) == Done([])
    ensures TextFrom(Arr([v])) == if v == Null then Done([]) else TextFrom(v)
  {
  }

  lemma JoinStep(items: seq<Json>)
    requires |items| > 1 && AllPrintable(items)
    ensures JoinFrom(items[..1]).Done? && JoinFrom(items[1..]).Done?
    ensures JoinFrom(items) == Done(JoinFrom(items[..1]).value + [COMMA] + JoinFrom(items[1..]).value)
  {
    JoinExactly(items);
    JoinExactly(items[1..]);
    assert items[..1] == [items[0]];
    assert JoinFrom(items[..1]) == if items[0].Null? then Done([]) else TextFrom(items[0]);
  }

  /** The text of an array is that of its parts with a comma between. */
  lemma {:induction false} ArrayTextJoins(a: seq<Json>, b: seq<Json>)
    requires a != [] && b != [] && AllPrintable(a) && AllPrintable(b)
    ensures TextFrom(Arr(a)).Done? && TextFrom(Arr(b)).Done?
    ensures TextFrom(Arr(a + b)) == Done(TextFrom(Arr(a)).value + ([0x2C] + TextFrom(Arr(b)).value))
    decreases |a|
  {
    JoinExactly(a);
    JoinExactly(b);
    assert AllPrintable(a + b);
    JoinStep(a + b);
    assert (a + b)[..1] == a[..1];
    if |a| == 1 {
      assert (a + b)[1..] == b && a[..1] == a;
      Assoc(JoinFrom(a).value, [COMMA], JoinFrom(b).value);
    } else {
      JoinStep(a);
      ArrayTextJoins(a[1..], b);
      assert (a + b)[1..] == a[1..] + b;
      var x, y, z := JoinFrom(a[..1]).value, JoinFrom(a[1..]).value, JoinFrom(b).value;
      Assoc(x + [COMMA], y, [COMMA] + z);
    }
  }
}
