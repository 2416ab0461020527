/** `TextNormalizer.remove_personal_names`: each of twelve common first names is
    replaced by `[point]` wherever it stands as a whole word, ignoring case.

    One pass `re.sub(r'\bNAME\b', '[point]', text, flags=re.IGNORECASE)` is a
    left-to-right scan that remembers whether the previous character of the
    original text was a word character (that is what `\b` before the name
    looks at). */
module PersonalNames {
  import opened TextChars

  const CommonNames: seq<string> := [
    "Chaima", "Pierre", "Marie", "Jean", "Sophie", "Lucas",
    "Emma", "Louis", "Léa", "Hugo", "Chloé", "Gabriel"
  ]

  const Placeholder: string := "[point]"

  /** A name the scrubber can be given: a non-empty word that is not `point`
      in any case (so the placeholder never contains a name). */
  predicate IsName(name: string) {
    |name| > 0 && (forall j :: 0 <= j < |name| ==> IsWordChar(name[j]))
    && !(|name| == 5 && forall j :: 0 <= j < 5 ==> CaseEq(name[j], "point"[j]))
  }

  /** `name\b` matches at the start of `s`, ignoring case. */
  predicate MatchHere(s: seq<char>, name: string) {
    |name| <= |s| && (forall j :: 0 <= j < |name| ==> CaseEq(s[j], name[j]))
    && (|s| == |name| || !IsWordChar(s[|name|]))
  }

  /** One pass for one name; `afterWord` tells whether the character before `s`
      in the original text is a word character. */
  function Scrub(s: seq<char>, name: string, afterWord: bool): seq<char>
    requires name != []
    decreases |s|
  {
    if s == [] then []
    else if !afterWord && MatchHere(s, name) then Placeholder + Scrub(s[|name|..], name, true)
    else [s[0]] + Scrub(s[1..], name, IsWordChar(s[0]))
  }

  /** No whole-word occurrence of `name` starts anywhere in `s`. */
  predicate NameFree(s: seq<char>, name: string, afterWord: bool)
    decreases |s|
  {
    s == [] || (!(!afterWord && MatchHere(s, name)) && NameFree(s[1..], name, IsWordChar(s[0])))
  }

  /** The same notion by positions: no `i` with a non-word character (or the
      start) before it and a match of `name` at it. */
  predicate NoWholeWord(s: seq<char>, name: string, afterWord: bool) {
    forall i :: 0 <= i < |s| ==>
      !((if i == 0 then !afterWord else !IsWordChar(s[i - 1])) && MatchHere(s[i..], name))
  }

  lemma {:induction false} NameFreeIff(s: seq<char>, name: string, afterWord: bool)
    ensures NameFree(s, name, afterWord) <==> NoWholeWord(s, name, afterWord)
    decreases |s|
  {
    if s != [] {
      NameFreeIff(s[1..], name, IsWordChar(s[0]));
      assert forall i :: 1 <= i < |s| ==> s[i..] == s[1..][i - 1..] && s[i - 1] == (if i == 1 then s[0] else s[1..][i - 2]);
      assert s[0..] == s;
    }
  }

  /** Text in which the name does not occur is left as it is. */
  lemma {:induction false} FreeIsFixed(s: seq<char>, name: string, afterWord: bool)
    requires name != [] && NameFree(s, name, afterWord)
    ensures Scrub(s, name, afterWord) == s
    decreases |s|
  {
    if s != [] {
      FreeIsFixed(s[1..], name, IsWordChar(s[0]));
    }
  }

  /** Length of the longest prefix of `s` made of word characters. */
  function WordRun(s: seq<char>): (n: nat)
    ensures n <= |s|
    ensures forall i :: 0 <= i < n ==> IsWordChar(s[i])
    ensures n < |s| ==> !IsWordChar(s[n])
  {
    if s != [] && IsWordChar(s[0]) then 1 + WordRun(s[1..]) else 0
  }

  /** A match needs a word character first. */
  lemma MatchNeedsWord(s: seq<char>, name: string)
    requires IsName(name) && MatchHere(s, name)
    ensures IsWordChar(s[0])
  {
    assert CaseEq(s[0], name[0]);
  }

  /** Inside a word nothing is replaced: its first `k` word characters are
      copied and the scan goes on after them. */
  lemma {:induction false} WordCopied(t: seq<char>, name: string, k: nat)
    requires name != [] && k <= |t|
    requires forall i :: 0 <= i < k ==> IsWordChar(t[i])
    ensures Scrub(t, name, true) == t[..k] + Scrub(t[k..], name, true)
    decreases k
  {
    if k > 0 {
      ScrubCopies(t, name);
      WordCopied(t[1..], name, k - 1);
      assert t[1..][k - 1..] == t[k..] && t[1..][..k - 1] == t[1..k];
      HeadThenRest(t, k, Scrub(t[k..], name, true));
    }
  }

  /** After a word character nothing matches: the first character is copied. */
  lemma ScrubCopies(t: seq<char>, name: string)
    requires name != [] && t != []
    ensures Scrub(t, name, true) == [t[0]] + Scrub(t[1..], name, IsWordChar(t[0]))
  {
  }

  /** Whether a name matches depends only on its length plus one characters. */
  lemma MatchHereLocal(x: seq<char>, y: seq<char>, name: string, n: nat)
    requires |name| < n <= |x| && n <= |y| && x[..n] == y[..n]
    ensures MatchHere(x, name) <==> MatchHere(y, name)
  {
    assert forall j :: 0 <= j < n ==> x[j] == x[..n][j] == y[..n][j] == y[j];
  }

  /** The scan after a word character copies the word and the character that
      ends it. */
  lemma WordPrefixCopied(t: seq<char>, name: string)
    requires name != [] && WordRun(t) < |t|
    ensures |Scrub(t, name, true)| > WordRun(t)
    ensures Scrub(t, name, true)[..WordRun(t) + 1] == t[..WordRun(t) + 1]
  {
    var k := WordRun(t);
    WordCopied(t, name, k);
    ScrubCopies(t[k..], name);
    var u := Scrub(t[k..], name, true);
    assert u[0] == t[k];
    assert (t[..k] + u)[..k + 1] == t[..k + 1];
  }

  /** A match cannot run over a non-word character. */
  lemma MatchStopsAtNonWord(x: seq<char>, m: string, k: nat)
    requires IsName(m) && MatchHere(x, m) && k < |x| && !IsWordChar(x[k])
    ensures |m| <= k
  {
  }

  /** A match in the output of a copy step was already a match in the input. */
  lemma MatchBack(c: char, t: seq<char>, name: string, m: string)
    requires name != [] && IsName(m)
    requires MatchHere([c] + Scrub(t, name, IsWordChar(c)), m)
    ensures MatchHere([c] + t, m)
  {
    var x := [c] + Scrub(t, name, IsWordChar(c));
    MatchNeedsWord(x, m);
    assert x[0] == c;
    var k := WordRun(t);
    if k < |t| {
      WordPrefixCopied(t, name);
      assert x[..k + 2] == [c] + Scrub(t, name, true)[..k + 1];
      assert ([c] + t)[..k + 2] == [c] + t[..k + 1];
      assert x[k + 1] == t[k];
      MatchStopsAtNonWord(x, m, k + 1);
      MatchHereLocal(x, [c] + t, m, k + 2);
    } else {
      WordCopied(t, name, k);
      assert t[k..] == [];
    }
  }

  /** A text that is empty or starts with a non-word character is scanned the
      same way whatever came before it. */
  lemma NonWordHead(t: seq<char>, name: string, m: string)
    requires IsName(name) && IsName(m)
    requires t == [] || !IsWordChar(t[0])
    ensures Scrub(t, name, true) == Scrub(t, name, false)
    ensures NameFree(t, m, true) == NameFree(t, m, false)
  {
    if t != [] {
      if MatchHere(t, name) { MatchNeedsWord(t, name); }
      if MatchHere(t, m) { MatchNeedsWord(t, m); }
    }
  }

  /** The placeholder never holds a name, and after its closing bracket a new
      word may start. */
  lemma PlaceholderFree(t: seq<char>, m: string, afterWord: bool)
    requires IsName(m) && NameFree(t, m, false)
    ensures NameFree(Placeholder + t, m, afterWord)
  {
    var x := Placeholder + t;
    assert x[7..] == t;
    assert NameFree(x[6..], m, true) by { assert x[6..][1..] == x[7..]; }
    assert NameFree(x[5..], m, true) by { assert x[5..][1..] == x[6..]; }
    assert NameFree(x[4..], m, true) by { assert x[4..][1..] == x[5..]; }
    assert NameFree(x[3..], m, true) by { assert x[3..][1..] == x[4..]; }
    assert NameFree(x[2..], m, true) by { assert x[2..][1..] == x[3..]; }
    assert NameFree(x[1..], m, false) by { assert x[1..][1..] == x[2..]; }
    if MatchHere(x, m) { MatchNeedsWord(x, m); }
  }

  /** Absence of a name survives a suffix: what follows position `k` is free
      given the character before it. */
  lemma {:induction false} FreeSuffix(s: seq<char>, m: string, afterWord: bool, k: nat)
    requires NameFree(s, m, afterWord) && 0 < k <= |s|
    ensures NameFree(s[k..], m, IsWordChar(s[k - 1]))
    decreases k
  {
    if k > 1 {
      FreeSuffix(s[1..], m, IsWordChar(s[0]), k - 1);
      assert s[1..][k - 1..] == s[k..];
    }
  }

  /** One pass removes its own name and never brings back another one. */
  lemma {:induction false} ScrubLeavesFree(s: seq<char>, name: string, m: string, afterWord: bool)
    requires IsName(name) && IsName(m)
    requires m == name || NameFree(s, m, afterWord)
    ensures NameFree(Scrub(s, name, afterWord), m, afterWord)
    decreases |s|
  {
    if s != [] {
      if !afterWord && MatchHere(s, name) {
        var rest := s[|name|..];
        NonWordHead(rest, name, m);
        if m != name {
          FreeSuffix(s, m, afterWord, |name|);
          assert CaseEq(s[|name| - 1], name[|name| - 1]);
        }
        ScrubLeavesFree(rest, name, m, false);
        PlaceholderFree(Scrub(rest, name, true), m, afterWord);
      } else {
        var out := Scrub(s, name, afterWord);
        assert out == [s[0]] + Scrub(s[1..], name, IsWordChar(s[0]));
        if !afterWord && MatchHere(out, m) {
          MatchBack(s[0], s[1..], name, m);
        }
        ScrubLeavesFree(s[1..], name, m, IsWordChar(s[0]));
        assert out[1..] == Scrub(s[1..], name, IsWordChar(s[0]));
      }
    }
  }

  /** A text spelling the name in any case becomes the placeholder. */
  lemma WholeNameReplaced(s: seq<char>, name: string)
    requires name != [] && |s| == |name| && forall j :: 0 <= j < |s| ==> CaseEq(s[j], name[j])
    ensures Scrub(s, name, false) == Placeholder
  {
    assert s[|name|..] == [];
  }

  /** A match can only start in `p` and stay inside it when `p` ends with a
      non-word character: the name is made of word characters. */
  lemma {:induction false} MatchWithinPrefix(p: seq<char>, t: seq<char>, name: string)
    requires IsName(name) && p != [] && !IsWordChar(p[|p| - 1])
    requires MatchHere(p + t, name)
    ensures MatchHere(p, name)
  {
    var s := p + t;
    assert s[|p| - 1] == p[|p| - 1];
    assert |name| < |p|;
    assert forall j :: 0 <= j <= |name| ==> s[j] == p[j];
  }

  /** Text free of the name and ending with a non-word character is copied,
      whatever follows it, and the scan goes on after it as at the start. */
  lemma {:induction false} ScrubFreePrefix(p: seq<char>, t: seq<char>, name: string, afterWord: bool)
    requires IsName(name) && NameFree(p, name, afterWord)
    requires p == [] || !IsWordChar(p[|p| - 1])
    ensures Scrub(p + t, name, afterWord) == p + Scrub(t, name, afterWord && p == [])
    decreases |p|
  {
    if p == [] {
      assert p + t == t;
    } else {
      var s := p + t;
      if !afterWord && MatchHere(s, name) {
        MatchWithinPrefix(p, t, name);
      }
      assert s[0] == p[0] && s[1..] == p[1..] + t;
      assert Scrub(s, name, afterWord) == [p[0]] + Scrub(p[1..] + t, name, IsWordChar(p[0]));
      ScrubFreePrefix(p[1..], t, name, IsWordChar(p[0]));
      assert !(IsWordChar(p[0]) && p[1..] == []);
      assert p[1..|p|] == p[1..] && p[..|p|] == p;
      HeadThenRest(p, |p|, Scrub(t, name, false));
    }
  }

  /** `w` spells `name` up to case. */
  predicate Spells(w: seq<char>, name: string) {
    |w| == |name| && forall j :: 0 <= j < |w| ==> CaseEq(w[j], name[j])
  }

  /** A whole-word occurrence becomes the placeholder in context: the text
      before it, free of the name, is kept, and the scan resumes after it. */
  lemma {:induction false} WordBecomesPlaceholder(p: seq<char>, w: seq<char>, q: seq<char>, name: string)
    requires IsName(name) && NameFree(p, name, false)
    requires p == [] || !IsWordChar(p[|p| - 1])
    requires Spells(w, name)
    requires q == [] || !IsWordChar(q[0])
    ensures Scrub(p + w + q, name, false) == p + Placeholder + Scrub(q, name, true)
  {
    var m := w + q;
    assert p + w + q == p + m;
    ScrubFreePrefix(p, m, name, false);
    assert forall j :: 0 <= j < |w| ==> m[j] == w[j];
    assert MatchHere(m, name);
    assert m[|name|..] == q;
  }

  // ---------------------------------------------------------------------
  // The loop over the names
  // ---------------------------------------------------------------------

  predicate AllNames(names: seq<string>) {
    forall i :: 0 <= i < |names| ==> IsName(names[i])
  }

  /** The passes for `names`, in order. */
  function ScrubAll(text: string, names: seq<string>): string
    requires AllNames(names)
    decreases |names|
  {
    if names == [] then text else ScrubAll(Scrub(text, names[0], false), names[1..])
  }

  lemma CommonNamesAreNames()
    ensures AllNames(CommonNames)
  {
    forall i | 0 <= i < |CommonNames| ensures IsName(CommonNames[i]) {
      var n := CommonNames[i];
      if |n| == 5 {
        assert Lower(n[0]) != Lower('p');
      }
    }
  }

  /** Later passes keep a name absent. */
  lemma {:induction false} ScrubAllKeepsFree(text: string, names: seq<string>, m: string)
    requires AllNames(names)
    requires IsName(m) && NameFree(text, m, false)
    ensures NameFree(ScrubAll(text, names), m, false)
    decreases |names|
  {
    if names != [] {
      ScrubLeavesFree(text, names[0], m, false);
      ScrubAllKeepsFree(Scrub(text, names[0], false), names[1..], m);
    }
  }

  /** After all passes no listed name occurs as a whole word. */
  lemma {:induction false} ScrubAllRemoves(text: string, names: seq<string>)
    requires AllNames(names)
    ensures forall i :: 0 <= i < |names| ==> NameFree(ScrubAll(text, names), names[i], false)
    decreases |names|
  {
    if names != [] {
      var once := Scrub(text, names[0], false);
      ScrubLeavesFree(text, names[0], names[0], false);
      ScrubAllKeepsFree(once, names[1..], names[0]);
      ScrubAllRemoves(once, names[1..]);
      forall i | 0 < i < |names| ensures NameFree(ScrubAll(text, names), names[i], false) {
        assert names[i] == names[1..][i - 1];
      }
    }
  }

  /** Text in which no listed name occurs is returned unchanged. */
  lemma {:induction false} ScrubAllKeepsPlainText(text: string, names: seq<string>)
    requires AllNames(names)
    requires forall i :: 0 <= i < |names| ==> NameFree(text, names[i], false)
    ensures ScrubAll(text, names) == text
    decreases |names|
  {
    if names != [] {
      FreeIsFixed(text, names[0], false);
      ScrubAllKeepsPlainText(text, names[1..]);
    }
  }

  lemma ScrubAllIdempotent(text: string, names: seq<string>)
    requires AllNames(names)
    ensures ScrubAll(ScrubAll(text, names), names) == ScrubAll(text, names)
  {
    ScrubAllRemoves(text, names);
    ScrubAllKeepsPlainText(ScrubAll(text, names), names);
  }

  /** After a word character a run of word characters holds no whole word. */
  lemma {:induction false} FreeInsideWord(w: seq<char>, q: seq<char>, m: string)
    requires forall j :: 0 <= j < |w| ==> IsWordChar(w[j])
    requires NameFree(q, m, true)
    ensures NameFree(w + q, m, true)
    decreases |w|
  {
    if w == [] {
      assert w + q == q;
    } else {
      FreeInsideWord(w[1..], q, m);
      assert (w + q)[1..] == w[1..] + q;
    }
  }

  /** A word spelling a name is made of word characters. */
  lemma {:induction false} SpellsWord(w: seq<char>, name: string)
    requires IsName(name) && Spells(w, name)
    ensures w != [] && forall j :: 0 <= j < |w| ==> IsWordChar(w[j])
  {
    forall j | 0 <= j < |w| ensures IsWordChar(w[j]) {
      assert CaseEq(w[j], name[j]);
    }
  }

  /** A whole word matches only the names it spells. */
  lemma {:induction false} WordMatchesOnlyItsSpelling(w: seq<char>, q: seq<char>, m: string)
    requires IsName(m) && w != [] && forall j :: 0 <= j < |w| ==> IsWordChar(w[j])
    requires q == [] || !IsWordChar(q[0])
    requires MatchHere(w + q, m)
    ensures Spells(w, m)
  {
    var s := w + q;
    assert forall j :: 0 <= j < |w| ==> s[j] == w[j];
    assert |w| < |s| ==> s[|w|] == q[0];
  }

  /** A word spelling another name, followed by a non-word character or the
      end, holds no whole-word occurrence of `m`. */
  lemma {:induction false} FreeAroundWord(w: seq<char>, q: seq<char>, name: string, m: string)
    requires IsName(name) && IsName(m) && Spells(w, name) && !Spells(w, m)
    requires q == [] || !IsWordChar(q[0])
    requires NameFree(q, m, false)
    ensures NameFree(w + q, m, false)
  {
    var s := w + q;
    SpellsWord(w, name);
    NonWordHead(q, name, m);
    FreeInsideWord(w[1..], q, m);
    assert s[0] == w[0] && s[1..] == w[1..] + q;
    if MatchHere(s, m) {
      WordMatchesOnlyItsSpelling(w, q, m);
    }
  }

  /** A text free of `m` and ending with a non-word character may be followed
      by any text free of `m`. */
  lemma {:induction false} FreeConcat(p: seq<char>, x: seq<char>, m: string, afterWord: bool)
    requires IsName(m) && NameFree(p, m, afterWord) && NameFree(x, m, false)
    requires p != [] && !IsWordChar(p[|p| - 1])
    ensures NameFree(p + x, m, afterWord)
    decreases |p|
  {
    var s := p + x;
    if !afterWord && MatchHere(s, m) {
      MatchWithinPrefix(p, x, m);
    }
    assert s[1..] == p[1..] + x;
    if |p| == 1 {
      assert s[1..] == x;
    } else {
      FreeConcat(p[1..], x, m, IsWordChar(p[0]));
    }
  }

  /** The placeholder between texts free of `m` leaves the text free of `m`. */
  lemma {:induction false} FreeAroundPlaceholder(p: seq<char>, q: seq<char>, m: string)
    requires IsName(m) && NameFree(p, m, false) && NameFree(q, m, false)
    requires p == [] || !IsWordChar(p[|p| - 1])
    ensures NameFree(p + Placeholder + q, m, false)
  {
    PlaceholderFree(q, m, false);
    if p != [] {
      FreeConcat(p, Placeholder + q, m, false);
      assert p + Placeholder + q == p + (Placeholder + q);
    } else {
      assert p + Placeholder + q == Placeholder + q;
    }
  }

  /** A word spelling another name between texts free of `m` leaves the text
      free of `m`. */
  lemma {:induction false} FreeAroundOtherWord(p: seq<char>, w: seq<char>, q: seq<char>, name: string, m: string)
    requires IsName(name) && IsName(m) && Spells(w, name) && !Spells(w, m)
    requires NameFree(p, m, false) && NameFree(q, m, false)
    requires p == [] || !IsWordChar(p[|p| - 1])
    requires q == [] || !IsWordChar(q[0])
    ensures NameFree(p + w + q, m, false)
  {
    FreeAroundWord(w, q, name, m);
    if p != [] {
      FreeConcat(p, w + q, m, false);
      assert p + w + q == p + (w + q);
    } else {
      assert p + w + q == w + q;
    }
  }

  /** Each listed name becomes `[point]`: a whole word spelling one of them,
      between texts holding none of them, is replaced by the placeholder and
      the rest is kept. */
  lemma {:induction false} NameBecomesPlaceholder(p: seq<char>, w: seq<char>, q: seq<char>, names: seq<string>, i: nat)
    requires AllNames(names) && i < |names| && Spells(w, names[i])
    requires forall j :: 0 <= j < |names| ==> NameFree(p, names[j], false) && NameFree(q, names[j], false)
    requires p == [] || !IsWordChar(p[|p| - 1])
    requires q == [] || !IsWordChar(q[0])
    ensures ScrubAll(p + w + q, names) == p + Placeholder + q
    decreases |names|
  {
    var n, rest := names[0], names[1..];
    assert IsName(n) && NameFree(p, n, false) && NameFree(q, n, false);
    assert forall j :: 0 <= j < |rest| ==> rest[j] == names[j + 1];
    if Spells(w, n) {
      WordBecomesPlaceholder(p, w, q, n);
      NonWordHead(q, n, n);
      FreeIsFixed(q, n, false);
      var out := p + Placeholder + q;
      forall j | 0 <= j < |rest| ensures NameFree(out, rest[j], false) {
        FreeAroundPlaceholder(p, q, rest[j]);
      }
      ScrubAllKeepsPlainText(out, rest);
    } else {
      FreeAroundOtherWord(p, w, q, names[i], n);
      FreeIsFixed(p + w + q, n, false);
      NameBecomesPlaceholder(p, w, q, rest, i - 1);
    }
  }

  /** The scrubbing loop over a list of names: the text after the last name is
      the fold of the passes, and none of the names is left in it as a whole word. */
  method ScrubNames(text: string, names: seq<string>) returns (r: string)
    requires AllNames(names)
    ensures r == ScrubAll(text, names)
    ensures forall i :: 0 <= i < |names| ==> NoWholeWord(r, names[i], false)
  {
    r := text;
    for k := 0 to |names|
      invariant ScrubAll(r, names[k..]) == ScrubAll(text, names)
    {
      assert names[k..][1..] == names[k + 1..];
      r := Scrub(r, names[k], false);
    }
    assert names[|names|..] == [];
    ScrubAllRemoves(text, names);
    forall i | 0 <= i < |names| ensures NoWholeWord(r, names[i], false) {
      NameFreeIff(r, names[i], false);
    }
  }

  /** `remove_personal_names`: the loop over the twelve common first names. */
  method RemovePersonalNames(text: string) returns (r: string)
    ensures AllNames(CommonNames) && r == ScrubAll(text, CommonNames)
    ensures forall i :: 0 <= i < |CommonNames| ==> NoWholeWord(r, CommonNames[i], false)
  {
    CommonNamesAreNames();
    r := ScrubNames(text, CommonNames);
  }
}
