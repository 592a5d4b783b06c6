// Relative payload paths, and where joining them to an absolute root leads.
module SafePath {
  import opened Sequences
  import opened Texts

  const DOT_PART: Text := [DOT]
  const DOTDOT_PART: Text := [DOT, DOT]

  /** value.split("/") */
  function Split(t: Text): (parts: seq<Text>)
    ensures parts != []
  {
    if t == [] then [[]]
    else
      var rest := Split(t[1..]);
      if t[0] == SLASH then [[]] + rest else [[t[0]] + rest[0]] + rest[1..]
  }

  function Join(parts: seq<Text>): Text
    requires parts != []
  {
    if |parts| == 1 then parts[0] else parts[0] + ([SLASH] + Join(parts[1..]))
  }

  predicate PlainPart(part: Text) {
    part != [] && part != DOT_PART && part != DOTDOT_PART
  }

  predicate AllPlain(parts: seq<Text>) {
    forall i :: 0 <= i < |parts| ==> PlainPart(parts[i])
  }

  predicate IsSafePath(t: Text) {
    && t != []
    && t[0] != SLASH
    && BACKSLASH !in t
    && AllPlain(Split(t))
  }

  /** One segment of path normalisation under an absolute root. */
  function Step(stack: seq<Text>, part: Text): seq<Text> {
    if part == [] || part == DOT_PART then stack
    else if part == DOTDOT_PART then (if stack == [] then [] else stack[..|stack| - 1])
    else stack + [part]
  }

  function Resolve(stack: seq<Text>, parts: seq<Text>): seq<Text>
    decreases parts
  {
    if parts == [] then stack else Resolve(Step(stack, parts[0]), parts[1..])
  }

  /** The location an absolute path names: its normalised segments. */
  function Location(path: Text): seq<Text> {
    Resolve([], Split(path))
  }

  /** join(root, path) */
  function JoinedLocation(root: Text, path: Text): seq<Text> {
    Location(root + [SLASH] + path)
  }

  // The parts of a text with one more unit in front.
  function Prepend(u: CodeUnit, parts: seq<Text>): seq<Text>
    requires parts != []
  {
    if u == SLASH then [[]] + parts else [[u] + parts[0]] + parts[1..]
  }

  lemma SplitCons(u: CodeUnit, t: Text)
    ensures Split([u] + t) == Prepend(u, Split(t))
  {
    HeadAndTail(u, t);
  }

  lemma PrependConcat(u: CodeUnit, a: seq<Text>, b: seq<Text>)
    requires a != []
    ensures Prepend(u, a + b) == Prepend(u, a) + b
  {
    HeadOfConcat(a, b);
    if u == SLASH { Assoc([[]], a, b); } else { Assoc([[u] + a[0]], a[1..], b); }
  }

  lemma {:induction false} SplitConcat(a: Text, b: Text)
    ensures Split(a + [SLASH] + b) == Split(a) + Split(b)
  {
    if a == [] {
      assert a + [SLASH] + b == [SLASH] + b;
      SplitCons(SLASH, b);
    } else {
      var more := a[1..] + [SLASH] + b;
      SplitConcat(a[1..], b);
      assert a + [SLASH] + b == [a[0]] + more;
      SplitCons(a[0], more);
      assert a == [a[0]] + a[1..];
      SplitCons(a[0], a[1..]);
      PrependConcat(a[0], Split(a[1..]), Split(b));
    }
  }

  lemma JoinPrepend(u: CodeUnit, parts: seq<Text>)
    requires parts != []
    ensures Prepend(u, parts) != [] && Join(Prepend(u, parts)) == [u] + Join(parts)
  {
    if u == SLASH {
      HeadAndTail([], parts);
      assert [] + ([SLASH] + Join(parts)) == [u] + Join(parts);
    } else {
      HeadAndTail([u] + parts[0], parts[1..]);
      if |parts| > 1 { Assoc([u], parts[0], [SLASH] + Join(parts[1..])); }
    }
  }

  lemma {:induction false} JoinSplit(t: Text)
    ensures Join(Split(t)) == t
  {
    if t != [] {
      JoinSplit(t[1..]);
      assert t == [t[0]] + t[1..];
      SplitCons(t[0], t[1..]);
      JoinPrepend(t[0], Split(t[1..]));
    }
  }

  lemma {:induction false} ResolveConcat(stack: seq<Text>, a: seq<Text>, b: seq<Text>)
    ensures Resolve(stack, a + b) == Resolve(Resolve(stack, a), b)
    decreases a
  {
    if a == [] {
      assert a + b == b;
    } else {
      HeadOfConcat(a, b);
      ResolveConcat(Step(stack, a[0]), a[1..], b);
    }
  }

  lemma {:induction false} ResolveNeverGrowsMore(stack: seq<Text>, parts: seq<Text>)
    ensures |Resolve(stack, parts)| <= |stack| + |parts|
    ensures !AllPlain(parts) ==> |Resolve(stack, parts)| < |stack| + |parts|
    decreases parts
  {
    if parts != [] {
      ResolveNeverGrowsMore(Step(stack, parts[0]), parts[1..]);
      if PlainPart(parts[0]) && AllPlain(parts[1..]) {
        forall i | 0 <= i < |parts| ensures PlainPart(parts[i]) {
          if i > 0 { assert parts[i] == parts[1..][i - 1]; }
        }
      }
    }
  }

  lemma {:induction false} PlainPartsAreAppended(stack: seq<Text>, parts: seq<Text>)
    requires AllPlain(parts)
    ensures Resolve(stack, parts) == stack + parts
    decreases parts
  {
    if parts != [] {
      PlainPartsAreAppended(stack + [parts[0]], parts[1..]);
      assert stack + [parts[0]] + parts[1..] == stack + parts;
    }
  }

  /** Resolution appends the parts unchanged exactly when every part is plain. */
  lemma AppendedExactlyWhenPlain(stack: seq<Text>, parts: seq<Text>)
    ensures Resolve(stack, parts) == stack + parts <==> AllPlain(parts)
  {
    if AllPlain(parts) {
      PlainPartsAreAppended(stack, parts);
    } else {
      ResolveNeverGrowsMore(stack, parts);
    }
  }

  /** A path is safe exactly when it has no backslash and joining it to any
      root leads to the root's location followed by the path's own parts. */
  lemma SafeExactlyWhenPlacedBelowRoot(root: Text, path: Text)
    ensures IsSafePath(path) <==>
      BACKSLASH !in path && JoinedLocation(root, path) == Location(root) + Split(path)
  {
    SplitConcat(root, path);
    ResolveConcat([], Split(root), Split(path));
    AppendedExactlyWhenPlain(Location(root), Split(path));
    if AllPlain(Split(path)) {
      assert PlainPart(Split(path)[0]);
    }
  }

  /** Distinct safe paths never name the same location. */
  lemma SafePathsNeverAlias(root: Text, p: Text, q: Text)
    requires IsSafePath(p) && IsSafePath(q)
    requires JoinedLocation(root, p) == JoinedLocation(root, q)
    ensures p == q
  {
    SafeExactlyWhenPlacedBelowRoot(root, p);
    SafeExactlyWhenPlacedBelowRoot(root, q);
    var base := Location(root);
    assert Split(p) == (base + Split(p))[|base|..];
    assert Split(q) == (base + Split(q))[|base|..];
    JoinSplit(p);
    JoinSplit(q);
  }

  /** Where other parts lead: empty parts and dots stay, two dots go back over the
      part before, and at the root they stay too. */
  lemma OtherPartsLead(stack: seq<Text>, part: Text, rest: seq<Text>)
    ensures Resolve(stack, [[]] + rest) == Resolve(stack, rest)
    ensures Resolve(stack, [Lit(".")] + rest) == Resolve(stack, rest)
    ensures Resolve([], [Lit("..")] + rest) == Resolve([], rest)
    ensures PlainPart(part) ==> Resolve(stack, [part] + ([Lit("..")] + rest)) == Resolve(stack, rest)
  {
    assert Lit(".") == DOT_PART && Lit("..") == DOTDOT_PART;
    HeadAndTail([], rest);
    HeadAndTail(Lit("."), rest);
    HeadAndTail(Lit(".."), rest);
    HeadAndTail(part, [Lit("..")] + rest);
    assert (stack + [part])[..|stack|] == stack;
  }
}
