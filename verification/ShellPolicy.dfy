// The advisory guidance check on steps text: code fences and a word denylist,
// /\b(npx|npm|...)\b/i over UTF-16 code units.
module ShellPolicy {
  import opened Texts

  const BACKTICK: CodeUnit := 0x60
  const TILDE: CodeUnit := 0x7E

  const DENIED_WORDS: seq<Text> := [
    Lit("npx"), Lit("npm"), Lit("node"), Lit("nodejs"), Lit("bash"), Lit("sh"), Lit("python"),
    Lit("python3"), Lit("pip"), Lit("pip3"), Lit("git"), Lit("curl"), Lit("wget"), Lit("sudo"),
    Lit("rm"), Lit("powershell"), Lit("eval"), Lit("exec"), Lit("chmod"), Lit("chown"),
    Lit("docker"), Lit("uvx"), Lit("bunx"), Lit("deno")
  ]

  predicate IsWordUnit(u: CodeUnit) {
    IsDigit(u) || 0x41 <= u <= 0x5A || 0x61 <= u <= 0x7A || u == 0x5F
  }

  // Without the u flag, case folding never identifies an ASCII letter with
  // anything but its other case.
  function Fold(u: CodeUnit): CodeUnit {
    if 0x41 <= u <= 0x5A then u + 0x20 else u
  }

  predicate WordAt(t: Text, i: nat, w: Text) {
    && i + |w| <= |t|
    && (forall j :: 0 <= j < |w| ==> Fold(t[i + j]) == w[j])
    && (i == 0 || !IsWordUnit(t[i - 1]))
    && (i + |w| == |t| || !IsWordUnit(t[i + |w|]))
  }

  predicate FenceAt(t: Text, i: nat) {
    i + 3 <= |t| && t[i] == TILDE && t[i + 1] == TILDE && t[i + 2] == TILDE
  }

  predicate ShellLike(t: Text) {
    || BACKTICK in t
    || (exists i :: 0 <= i < |t| && FenceAt(t, i))
    || (exists i, k :: 0 <= i < |t| && 0 <= k < |DENIED_WORDS| && WordAt(t, i, DENIED_WORDS[k]))
  }

  // The two texts agree except where both hold a unit outside ASCII.
  ghost predicate SameAscii(a: Text, b: Text) {
    |a| == |b| && forall i :: 0 <= i < |a| ==> a[i] == b[i] || (a[i] >= 0x80 && b[i] >= 0x80)
  }

  lemma WordsAreAscii(k: nat, j: nat)
    requires k < |DENIED_WORDS| && j < |DENIED_WORDS[k]|
    ensures DENIED_WORDS[k][j] < 0x80
  {
  }

  lemma WordAtDependsOnAscii(a: Text, b: Text, i: nat, k: nat)
    requires SameAscii(a, b) && k < |DENIED_WORDS| && WordAt(a, i, DENIED_WORDS[k])
    ensures WordAt(b, i, DENIED_WORDS[k])
  {
    var w := DENIED_WORDS[k];
    forall j | 0 <= j < |w| ensures Fold(b[i + j]) == w[j] {
      WordsAreAscii(k, j);
      assert Fold(a[i + j]) == w[j];
    }
  }

  lemma ShellLikeImplied(a: Text, b: Text)
    requires SameAscii(a, b) && ShellLike(a)
    ensures ShellLike(b)
  {
    if BACKTICK in a {
      var i :| 0 <= i < |a| && a[i] == BACKTICK;
      assert b[i] == BACKTICK;
    } else if exists i :: 0 <= i < |a| && FenceAt(a, i) {
      var i :| 0 <= i < |a| && FenceAt(a, i);
      assert FenceAt(b, i);
    } else {
      var i, k :| 0 <= i < |a| && 0 <= k < |DENIED_WORDS| && WordAt(a, i, DENIED_WORDS[k]);
      WordAtDependsOnAscii(a, b, i, k);
    }
  }

  /** The check looks at ASCII only. */
  lemma ShellLikeDependsOnAscii(a: Text, b: Text)
    requires SameAscii(a, b)
    ensures ShellLike(a) <==> ShellLike(b)
  {
    if ShellLike(a) { ShellLikeImplied(a, b); }
    if ShellLike(b) { ShellLikeImplied(b, a); }
  }

  // ----- which texts the check stops -----

  /** The same letters, in either case, and the same other units. */
  ghost predicate InEitherCase(t: Text, word: Text) {
    && |t| == |word|
    && forall j :: 0 <= j < |t| ==> t[j] == word[j] || (0x61 <= word[j] <= 0x7A && t[j] == word[j] - 0x20)
  }

  ghost predicate NodeWord(word: Text) {
    || word == Lit("npx") || word == Lit("npm") || word == Lit("node") || word == Lit("nodejs")
    || word == Lit("uvx") || word == Lit("bunx") || word == Lit("deno")
  }

  ghost predicate ShellWord(word: Text) {
    || word == Lit("bash") || word == Lit("sh") || word == Lit("powershell")
    || word == Lit("eval") || word == Lit("exec") || word == Lit("sudo")
  }

  ghost predicate PythonWord(word: Text) {
    word == Lit("python") || word == Lit("python3") || word == Lit("pip") || word == Lit("pip3")
  }

  ghost predicate ToolWord(word: Text) {
    || word == Lit("git") || word == Lit("curl") || word == Lit("wget") || word == Lit("rm")
    || word == Lit("chmod") || word == Lit("chown") || word == Lit("docker")
  }

  ghost predicate Denied(word: Text) {
    NodeWord(word) || ShellWord(word) || PythonWord(word) || ToolWord(word)
  }

  // A letter, a digit or an underscore.
  ghost predicate JoinsWords(u: CodeUnit) {
    0x30 <= u <= 0x39 || 0x41 <= u <= 0x5A || u == 0x5F || 0x61 <= u <= 0x7A
  }

  // Nothing around that would make the word part of a longer one.
  ghost predicate Apart(lead: Text, tail: Text) {
    (lead == [] || !JoinsWords(lead[|lead| - 1])) && (tail == [] || !JoinsWords(tail[0]))
  }

  /** One of the denied words, in any case, with no letter, digit or underscore around it. */
  ghost predicate HasDeniedWord(t: Text) {
    exists lead: Text, word: Text, tail: Text :: IsDeniedSplit(t, lead, word, tail)
  }

  ghost predicate IsDeniedSplit(t: Text, lead: Text, word: Text, tail: Text) {
    && t == lead + word + tail
    && (exists w :: Denied(w) && InEitherCase(word, w))
    && Apart(lead, tail)
  }

  ghost predicate HasFence(t: Text) {
    exists lead: Text, tail: Text :: t == lead + [0x7E, 0x7E, 0x7E] + tail
  }

  lemma NodeWordListed(word: Text)
    requires NodeWord(word)
    ensures word in DENIED_WORDS
  {
    assert DENIED_WORDS[0] == Lit("npx") && DENIED_WORDS[1] == Lit("npm") && DENIED_WORDS[2] == Lit("node");
    assert DENIED_WORDS[3] == Lit("nodejs") && DENIED_WORDS[21] == Lit("uvx");
    assert DENIED_WORDS[22] == Lit("bunx") && DENIED_WORDS[23] == Lit("deno");
  }

  lemma ShellWordListed(word: Text)
    requires ShellWord(word)
    ensures word in DENIED_WORDS
  {
    assert DENIED_WORDS[4] == Lit("bash") && DENIED_WORDS[5] == Lit("sh") && DENIED_WORDS[15] == Lit("powershell");
    assert DENIED_WORDS[16] == Lit("eval") && DENIED_WORDS[17] == Lit("exec") && DENIED_WORDS[13] == Lit("sudo");
  }

  lemma PythonWordListed(word: Text)
    requires PythonWord(word)
    ensures word in DENIED_WORDS
  {
    assert DENIED_WORDS[6] == Lit("python") && DENIED_WORDS[7] == Lit("python3");
    assert DENIED_WORDS[8] == Lit("pip") && DENIED_WORDS[9] == Lit("pip3");
  }

  lemma ToolWordListed(word: Text)
    requires ToolWord(word)
    ensures word in DENIED_WORDS
  {
    assert DENIED_WORDS[10] == Lit("git") && DENIED_WORDS[11] == Lit("curl") && DENIED_WORDS[12] == Lit("wget");
    assert DENIED_WORDS[14] == Lit("rm") && DENIED_WORDS[18] == Lit("chmod") && DENIED_WORDS[19] == Lit("chown");
    assert DENIED_WORDS[20] == Lit("docker");
  }

  lemma EarlyIsDenied(k: nat)
    requires k < 12
    ensures Denied(DENIED_WORDS[k])
  {
  }

  lemma LateIsDenied(k: nat)
    requires 12 <= k < 24
    ensures Denied(DENIED_WORDS[k])
  {
  }

  lemma ListedExactly(word: Text)
    ensures word in DENIED_WORDS <==> Denied(word)
  {
    if k :| 0 <= k < 24 && DENIED_WORDS[k] == word {
      if k < 12 { EarlyIsDenied(k); } else { LateIsDenied(k); }
    }
    if NodeWord(word) { NodeWordListed(word); }
    if ShellWord(word) { ShellWordListed(word); }
    if PythonWord(word) { PythonWordListed(word); }
    if ToolWord(word) { ToolWordListed(word); }
  }

  ghost predicate NoCapitals(word: Text) {
    word != [] && forall j :: 0 <= j < |word| ==> !(0x41 <= word[j] <= 0x5A)
  }

  lemma NodeWordIsLower(word: Text)
    requires NodeWord(word)
    ensures NoCapitals(word)
  {
  }

  lemma ShellWordIsLower(word: Text)
    requires ShellWord(word)
    ensures NoCapitals(word)
  {
  }

  lemma OtherWordIsLower(word: Text)
    requires PythonWord(word) || ToolWord(word)
    ensures NoCapitals(word)
  {
  }

  lemma DeniedIsLower(word: Text)
    requires Denied(word)
    ensures NoCapitals(word)
  {
    if NodeWord(word) { NodeWordIsLower(word); }
    else if ShellWord(word) { ShellWordIsLower(word); }
    else { OtherWordIsLower(word); }
  }

  // A word in lower case stands at i exactly when the text has it there in either case.
  lemma WordAtExactly(t: Text, i: nat, w: Text)
    requires NoCapitals(w) && i + |w| <= |t|
    ensures WordAt(t, i, w) <==> InEitherCase(t[i..i + |w|], w) && Apart(t[..i], t[i + |w|..])
  {
    var s := t[i..i + |w|];
    assert forall j :: 0 <= j < |w| ==> s[j] == t[i + j];
    if WordAt(t, i, w) {
      forall j | 0 <= j < |w| ensures s[j] == w[j] || (0x61 <= w[j] <= 0x7A && s[j] == w[j] - 0x20) {
        assert Fold(t[i + j]) == w[j];
      }
    }
  }

  lemma DeniedSplit(t: Text, lead: Text, word: Text, tail: Text, w: Text)
    requires t == lead + word + tail && Denied(w) && InEitherCase(word, w) && Apart(lead, tail)
    ensures HasDeniedWord(t)
  {
    assert IsDeniedSplit(t, lead, word, tail);
  }

  lemma SplitAround(t: Text, i: nat, n: nat)
    requires i + n <= |t|
    ensures t == t[..i] + t[i..i + n] + t[i + n..]
  {
  }

  lemma WordAtSplits(t: Text, i: nat, w: Text)
    requires i < |t| && w in DENIED_WORDS && WordAt(t, i, w)
    ensures HasDeniedWord(t)
  {
    ListedExactly(w);
    DeniedIsLower(w);
    WordAtExactly(t, i, w);
    SplitAround(t, i, |w|);
    DeniedSplit(t, t[..i], t[i..i + |w|], t[i + |w|..], w);
  }

  lemma SplitIsWordAt(t: Text, lead: Text, word: Text, tail: Text)
    requires IsDeniedSplit(t, lead, word, tail)
    ensures exists i, k :: 0 <= i < |t| && 0 <= k < |DENIED_WORDS| && WordAt(t, i, DENIED_WORDS[k])
  {
    var w :| Denied(w) && InEitherCase(word, w);
    ListedExactly(w);
    DeniedIsLower(w);
    var k :| 0 <= k < |DENIED_WORDS| && DENIED_WORDS[k] == w;
    assert t[..|lead|] == lead && t[|lead|..|lead| + |w|] == word && t[|lead| + |w|..] == tail;
    WordAtExactly(t, |lead|, w);
  }

  lemma FenceExactly(t: Text)
    ensures (exists i :: 0 <= i < |t| && FenceAt(t, i)) <==> HasFence(t)
  {
    if i :| 0 <= i < |t| && FenceAt(t, i) {
      assert t == t[..i] + [0x7E, 0x7E, 0x7E] + t[i + 3..];
    }
    if lead: Text, tail: Text :| t == lead + [0x7E, 0x7E, 0x7E] + tail {
      assert t[|lead|] == 0x7E && t[|lead| + 1] == 0x7E && t[|lead| + 2] == 0x7E;
      assert FenceAt(t, |lead|);
    }
  }

  /** The check stops exactly the texts with a backtick, three tildes in a row or a
      denied word that stands alone. */
  lemma ShellLikeExactly(t: Text)
    ensures ShellLike(t) <==> 0x60 in t || HasFence(t) || HasDeniedWord(t)
  {
    FenceExactly(t);
    if i, k :| 0 <= i < |t| && 0 <= k < |DENIED_WORDS| && WordAt(t, i, DENIED_WORDS[k]) {
      WordAtSplits(t, i, DENIED_WORDS[k]);
    }
    if lead: Text, word: Text, tail: Text :| IsDeniedSplit(t, lead, word, tail) {
      SplitIsWordAt(t, lead, word, tail);
    }
  }
}
