/** `TextNormalizer.clean_latex_symbols`: a `\frac{a}{b}` with brace-free
    arguments becomes `a/b`, then every `\(` and `\)` is deleted. */
module LatexSymbols {
  import opened TextChars

  const Backslash: char := '\\'

  /** Number of characters of `s` other than `}` from position `i` on (what
      `[^}]+` consumes there). */
  function BraceFreeFrom(s: seq<char>, i: nat): (n: nat)
    requires i <= |s|
    ensures i + n <= |s|
    ensures forall k :: i <= k < i + n ==> s[k] != '}'
    ensures i + n < |s| ==> s[i + n] == '}'
    decreases |s| - i
  {
    if i < |s| && s[i] != '}' then 1 + BraceFreeFrom(s, i + 1) else 0
  }

  /** A run without `}` from `i` up to `j`, where a `}` or the end follows. */
  lemma {:induction false} BraceFreeUpTo(s: seq<char>, i: nat, j: nat)
    requires i <= j <= |s|
    requires forall k :: i <= k < j ==> s[k] != '}'
    requires j == |s| || s[j] == '}'
    ensures BraceFreeFrom(s, i) == j - i
    decreases j - i
  {
    if i < j {
      BraceFreeUpTo(s, i + 1, j);
    }
  }

  /** A match of `\\frac\s*{([^}]+)}\s*{([^}]+)}`: its two groups and its length. */
  datatype Frac = Frac(num: seq<char>, den: seq<char>, len: nat)

  /** A match of `\s*{([^}]+)}`: its group and the position after its `}`. */
  datatype Group = Group(text: seq<char>, end: nat)

  /** The match of `\s*{([^}]+)}` at position `i` of `s`, if there is one. */
  function GroupAt(s: seq<char>, i: nat): (r: Option<Group>)
    requires i <= |s|
    ensures r.Some? ==> i + |r.value.text| + 2 <= r.value.end <= |s|
    ensures r.Some? ==> r.value.text != [] && forall t :: 0 <= t < |r.value.text| ==> r.value.text[t] != '}'
  {
    var o := i + BlanksFrom(s, i);
    if o == |s| || s[o] != '{' then None
    else
      var g := BraceFreeFrom(s, o + 1);
      if g == 0 || o + 1 + g == |s| then None
      else Some(Group(s[o + 1..o + 1 + g], o + 2 + g))
  }

  /** The match of the fraction pattern at the start of `s`, if there is one:
      `\frac` followed by two groups. */
  function FracAt(s: seq<char>): (r: Option<Frac>)
    ensures r.Some? ==> r.value.len <= |s| && |r.value.num| + |r.value.den| + 9 <= r.value.len
    ensures r.Some? ==> r.value.num != [] && r.value.den != []
    ensures r.Some? ==> forall t :: 0 <= t < |r.value.num| ==> r.value.num[t] != '}'
    ensures r.Some? ==> forall t :: 0 <= t < |r.value.den| ==> r.value.den[t] != '}'
    ensures r.Some? ==> HasPrefix(s, [Backslash, 'f', 'r', 'a', 'c'])
  {
    if !HasPrefix(s, [Backslash, 'f', 'r', 'a', 'c']) then None
    else
      match GroupAt(s, 5)
      case None => None
      case Some(g1) =>
        match GroupAt(s, g1.end)
        case None => None
        case Some(g2) => Some(Frac(g1.text, g2.text, g2.end))
  }

  /** `re.sub(r'\\frac\s*{([^}]+)}\s*{([^}]+)}', r'\1/\2', s)`. */
  function Fracs(s: seq<char>): (r: seq<char>)
    ensures |r| <= |s|
    decreases |s|
  {
    if s == [] then []
    else if s[0] != Backslash then [s[0]] + Fracs(s[1..])
    else
      match FracAt(s)
      case Some(f) => f.num + "/" + f.den + Fracs(s[f.len..])
      case None => [s[0]] + Fracs(s[1..])
  }

  /** `\(` or `\)` starts `s`. */
  predicate ParenAt(s: seq<char>) {
    |s| >= 2 && s[0] == Backslash && (s[1] == '(' || s[1] == ')')
  }

  /** `re.sub(r'\\\(|\\\)', '', s)`. */
  function Parens(s: seq<char>): (r: seq<char>)
    ensures |r| <= |s|
    ensures forall c :: c in r ==> c in s
    decreases |s|
  {
    if s == [] then []
    else if ParenAt(s) then
      assert forall c :: c in s[2..] ==> c in s;
      Parens(s[2..])
    else
      [s[0]] + Parens(s[1..])
  }

  function CleanLatexSymbols(text: string): (r: string)
    ensures |r| <= |text|
  {
    Parens(Fracs(text))
  }

  /** Text without a backslash is copied unchanged, whatever follows it. */
  lemma {:induction false} ParensFreePrefix(p: seq<char>, t: seq<char>)
    requires Backslash !in p
    ensures Parens(p + t) == p + Parens(t)
  {
    if p != [] {
      assert p[0] in p;
      assert !ParenAt(p + t);
      assert Parens(p + t) == [p[0]] + Parens((p + t)[1..]);
      assert (p + t)[1..] == p[1..] + t;
      ParensFreePrefix(p[1..], t);
      assert [p[0]] + p[1..] == p;
    } else {
      assert p + t == t;
    }
  }

  /** `\(` and `\)` are deleted: the text before is kept and the text after
      is rewritten in turn. */
  lemma {:induction false} ParenDeleted(p: seq<char>, c: char, q: seq<char>)
    requires Backslash !in p && (c == '(' || c == ')')
    ensures Parens(p + [Backslash, c] + q) == p + Parens(q)
  {
    var m := [Backslash, c] + q;
    assert p + [Backslash, c] + q == p + m;
    ParensFreePrefix(p, m);
    assert m[2..] == q;
  }

  lemma {:induction false} FracsKeepPlainText(s: seq<char>)
    requires Backslash !in s
    ensures Fracs(s) == s
  {
    if s != [] {
      assert s[0] != Backslash;
      assert FracAt(s).None?;
      FracsKeepPlainText(s[1..]);
    }
  }

  lemma {:induction false} ParensKeepPlainText(s: seq<char>)
    requires Backslash !in s
    ensures Parens(s) == s
  {
    if s != [] {
      ParensKeepPlainText(s[1..]);
    }
  }

  /** Text without a backslash is returned unchanged. */
  lemma {:induction false} CleanKeepsPlainText(text: string)
    requires Backslash !in text
    ensures CleanLatexSymbols(text) == text
  {
    FracsKeepPlainText(text);
    ParensKeepPlainText(text);
  }

  /** Blanks `w`, then `{a}`: a match of `\s*{([^}]+)}` when the blanks are
      whitespace and `a` is non-empty and free of `}`. */
  function GroupText(w: seq<char>, a: seq<char>): seq<char> {
    w + ['{'] + a + ['}']
  }

  /** `\frac`, blanks `w1`, `{a}`, blanks `w2`, `{b}`. */
  function FracText(w1: seq<char>, a: seq<char>, w2: seq<char>, b: seq<char>): seq<char> {
    [Backslash, 'f', 'r', 'a', 'c'] + GroupText(w1, a) + GroupText(w2, b)
  }

  /** The characters of a group laid out at `i`. */
  lemma {:induction false} GroupPieces(s: seq<char>, i: nat, w: seq<char>, a: seq<char>, e: nat)
    requires e == i + |GroupText(w, a)| && e <= |s| && s[i..e] == GroupText(w, a)
    ensures forall x :: i <= x < i + |w| ==> s[x] == w[x - i]
    ensures s[i + |w|] == '{' && s[e - 1] == '}'
    ensures forall x :: i + |w| + 1 <= x < e - 1 ==> s[x] == a[x - i - |w| - 1]
    ensures s[i + |w| + 1..e - 1] == a
  {
    var u := s[i..e];
    assert forall x :: i <= x < e ==> s[x] == u[x - i];
    assert u[..|w|] == w && u[|w|] == '{' && u[|w| + 1..|u| - 1] == a && u[|u| - 1] == '}';
  }

  /** A group laid out at `i` is matched whole, with `a` as its group. */
  lemma {:induction false} GroupLayout(s: seq<char>, i: nat, w: seq<char>, a: seq<char>, e: nat)
    requires AllSpaces(w) && a != [] && '}' !in a
    requires e == i + |GroupText(w, a)| && e <= |s| && s[i..e] == GroupText(w, a)
    ensures GroupAt(s, i) == Some(Group(a, e))
  {
    GroupPieces(s, i, w, a, e);
    var o := i + |w|;
    BlanksUpTo(s, i, o);
    assert forall x :: o + 1 <= x < e - 1 ==> s[x] != '}' by {
      assert forall x :: o + 1 <= x < e - 1 ==> s[x] == a[x - o - 1] && a[x - o - 1] in a;
    }
    BraceFreeUpTo(s, o + 1, e - 1);
  }

  /** Soundness of the group match: blanks, `{`, the group, `}`. */
  lemma {:induction false} GroupSound(s: seq<char>, i: nat)
    requires i <= |s|
    ensures GroupAt(s, i).Some? ==> exists w :: AllSpaces(w) && s[i..GroupAt(s, i).value.end] == GroupText(w, GroupAt(s, i).value.text)
  {
    if GroupAt(s, i).Some? {
      var g := GroupAt(s, i).value;
      var o := i + BlanksFrom(s, i);
      BlanksFromAll(s, i);
      var w := s[i..o];
      assert g.text == s[o + 1..g.end - 1] && s[o] == '{' && s[g.end - 1] == '}';
      assert s[i..o + 1] == s[i..o] + [s[o]];
      assert s[i..g.end - 1] == s[i..o + 1] + s[o + 1..g.end - 1];
      assert s[i..g.end] == s[i..g.end - 1] + [s[g.end - 1]];
      assert AllSpaces(w);
    }
  }

  /** `\frac` and two groups make a match. */
  lemma {:induction false} FracAtOfGroups(s: seq<char>, a: seq<char>, b: seq<char>, e: nat, n: nat)
    requires HasPrefix(s, [Backslash, 'f', 'r', 'a', 'c']) && 5 <= e <= |s|
    requires GroupAt(s, 5) == Some(Group(a, e)) && GroupAt(s, e) == Some(Group(b, n))
    ensures FracAt(s) == Some(Frac(a, b, n))
  {
  }

  /** The pieces of `\frac w1{a} w2{b}` followed by `q`. */
  lemma {:induction false} FracTextPieces(w1: seq<char>, a: seq<char>, w2: seq<char>, b: seq<char>, q: seq<char>,
                                          s: seq<char>, e: nat, n: nat)
    requires s == FracText(w1, a, w2, b) + q
    requires e == 5 + |GroupText(w1, a)| && n == e + |GroupText(w2, b)|
    ensures n == |FracText(w1, a, w2, b)| && n <= |s| && s[n..] == q
    ensures HasPrefix(s, [Backslash, 'f', 'r', 'a', 'c'])
    ensures s[5..e] == GroupText(w1, a) && s[e..n] == GroupText(w2, b)
  {
    assert s[..5] == [Backslash, 'f', 'r', 'a', 'c'];
  }

  /** `\frac{a}{b}` with blanks `w1` and `w2` matches as a whole, with `a` and
      `b` as its groups, whatever follows it. */
  lemma {:induction false} FracTextMatches(w1: seq<char>, a: seq<char>, w2: seq<char>, b: seq<char>, q: seq<char>)
    requires AllSpaces(w1) && AllSpaces(w2)
    requires a != [] && b != [] && '}' !in a && '}' !in b
    ensures FracAt(FracText(w1, a, w2, b) + q) == Some(Frac(a, b, |FracText(w1, a, w2, b)|))
  {
    var s := FracText(w1, a, w2, b) + q;
    var e := 5 + |GroupText(w1, a)|;
    var n := e + |GroupText(w2, b)|;
    FracTextPieces(w1, a, w2, b, q, s, e, n);
    GroupLayout(s, 5, w1, a, e);
    GroupLayout(s, e, w2, b, n);
    FracAtOfGroups(s, a, b, e, n);
  }

  /** Soundness of the match: a match is `\frac`, whitespace, `{` and its
      first group, `}`, whitespace, `{` and its second group, `}`. */
  lemma {:induction false} FracAtSound(s: seq<char>)
    ensures FracAt(s).Some? ==> exists w1, w2 :: (AllSpaces(w1) && AllSpaces(w2)
      && s[..FracAt(s).value.len] == FracText(w1, FracAt(s).value.num, w2, FracAt(s).value.den))
  {
    if FracAt(s).Some? {
      var f := FracAt(s).value;
      var g1 := GroupAt(s, 5).value;
      var g2 := GroupAt(s, g1.end).value;
      GroupSound(s, 5);
      GroupSound(s, g1.end);
      var w1 :| AllSpaces(w1) && s[5..g1.end] == GroupText(w1, g1.text);
      var w2 :| AllSpaces(w2) && s[g1.end..g2.end] == GroupText(w2, g2.text);
      assert f == Frac(g1.text, g2.text, g2.end);
      FracSlices(s, g1.end, g2.end, w1, g1.text, w2, g2.text);
    }
  }

  /** `\frac` and two laid-out groups make up the start of `s`. */
  lemma {:induction false} FracSlices(s: seq<char>, e: nat, n: nat, w1: seq<char>, a: seq<char>, w2: seq<char>, b: seq<char>)
    requires HasPrefix(s, [Backslash, 'f', 'r', 'a', 'c']) && 5 <= e <= n <= |s|
    requires s[5..e] == GroupText(w1, a) && s[e..n] == GroupText(w2, b)
    ensures s[..n] == FracText(w1, a, w2, b)
  {
    assert s[..5] == [Backslash, 'f', 'r', 'a', 'c'];
    assert s[..e] == s[..5] + s[5..e];
    assert s[..n] == s[..e] + s[e..n];
  }

  /** `\frac{a}{b}` with blanks `w1` and `w2`, and arguments free of braces
      and backslashes, becomes `a/b`. */
  lemma {:induction false} FracBecomesSlash(w1: seq<char>, a: seq<char>, w2: seq<char>, b: seq<char>)
    requires AllSpaces(w1) && AllSpaces(w2)
    requires a != [] && b != []
    requires '}' !in a && '}' !in b && Backslash !in a && Backslash !in b
    ensures CleanLatexSymbols(FracText(w1, a, w2, b)) == a + ['/'] + b
  {
    var s := FracText(w1, a, w2, b);
    FracTextMatches(w1, a, w2, b, []);
    assert s + [] == s;
    assert s[|s|..] == [];
    assert Fracs(s) == a + "/" + b;
    ParensKeepPlainText(a + ['/'] + b);
  }

  /** One step of the fraction rule at a match. */
  lemma {:induction false} FracsAt(s: seq<char>, f: Frac)
    requires FracAt(s) == Some(f)
    ensures f.len <= |s| && Fracs(s) == f.num + "/" + f.den + Fracs(s[f.len..])
  {
    assert s[..5][0] == s[0];
  }

  /** Text without a backslash is copied by the fraction rule, whatever follows it. */
  lemma {:induction false} FracsFreePrefix(p: seq<char>, t: seq<char>)
    requires Backslash !in p
    ensures Fracs(p + t) == p + Fracs(t)
  {
    var s := p + t;
    assert forall k :: 0 <= k < |p| ==> s[k] == p[k] && p[k] in p;
    assert s[..|p|] == p && s[|p|..] == t;
    FracsCopiedUpTo(s, |p|);
  }

  /** The first `n` characters of `s`, none a backslash, are copied. */
  lemma {:induction false} FracsCopiedUpTo(s: seq<char>, n: nat)
    requires n <= |s| && forall k :: 0 <= k < n ==> s[k] != Backslash
    ensures Fracs(s) == s[..n] + Fracs(s[n..])
  {
    if n > 0 {
      var u := s[1..];
      assert Fracs(s) == [s[0]] + Fracs(u);
      assert u[..n - 1] == s[1..n] && u[n - 1..] == s[n..];
      FracsCopiedUpTo(u, n - 1);
      HeadThenRest(s, n, Fracs(s[n..]));
    } else {
      assert s[..0] == [] && s[0..] == s;
    }
  }

  /** `\frac{a}{b}`, with any blanks `w1` and `w2`, becomes `a/b` in
      context: the backslash-free text before it is kept and the text after it
      is rewritten in turn. */
  lemma {:induction false} FracReplaced(p: seq<char>, w1: seq<char>, a: seq<char>, w2: seq<char>, b: seq<char>, q: seq<char>)
    requires AllSpaces(w1) && AllSpaces(w2)
    requires a != [] && b != [] && '}' !in a && '}' !in b
    requires Backslash !in p
    ensures Fracs(p + FracText(w1, a, w2, b) + q) == p + a + "/" + b + Fracs(q)
  {
    var t := FracText(w1, a, w2, b);
    var m := t + q;
    FracTextMatches(w1, a, w2, b, q);
    assert m[|t|..] == q;
    assert p + t + q == p + m;
    MatchReplaced(p, m, Frac(a, b, |t|), q);
  }

  /** A match at the start of `m` is replaced after the backslash-free `p`. */
  lemma {:induction false} MatchReplaced(p: seq<char>, m: seq<char>, f: Frac, q: seq<char>)
    requires Backslash !in p && FracAt(m) == Some(f)
    requires f.len <= |m| && m[f.len..] == q
    ensures Fracs(p + m) == p + f.num + "/" + f.den + Fracs(q)
  {
    FracsAt(m, f);
    FracsFreePrefix(p, m);
  }

  /** The whole cleaning in context: with `p`, `a` and `b` free of backslashes,
      `p\frac w1{a} w2{b}q` becomes `pa/b` followed by the cleaning of `q`. */
  lemma {:induction false} FracCleaned(p: seq<char>, w1: seq<char>, a: seq<char>, w2: seq<char>, b: seq<char>, q: seq<char>)
    requires AllSpaces(w1) && AllSpaces(w2)
    requires a != [] && b != [] && '}' !in a && '}' !in b
    requires Backslash !in p && Backslash !in a && Backslash !in b
    ensures CleanLatexSymbols(p + FracText(w1, a, w2, b) + q) == p + a + "/" + b + CleanLatexSymbols(q)
  {
    FracReplaced(p, w1, a, w2, b, q);
    var kept := p + a + "/" + b;
    assert Backslash !in kept;
    assert p + a + "/" + b + Fracs(q) == kept + Fracs(q);
    ParensFreePrefix(kept, Fracs(q));
  }

  /** One step of the fraction rule where no match starts. */
  lemma {:induction false} FracsMiss(s: seq<char>)
    requires s != [] && FracAt(s).None?
    ensures Fracs(s) == [s[0]] + Fracs(s[1..])
  {
  }

  /** A backslash that starts no fraction is copied: the backslash-free text
      before it is kept and the text after it is rewritten in turn. */
  lemma {:induction false} FracMissCopied(p: seq<char>, t: seq<char>)
    requires Backslash !in p && FracAt([Backslash] + t).None?
    ensures Fracs(p + [Backslash] + t) == p + [Backslash] + Fracs(t)
  {
    var m := [Backslash] + t;
    BackslashThen(p, t);
    BackslashThen(p, Fracs(t));
    FracsMiss(m);
    FracsFreePrefix(p, m);
  }

  /** Regrouping a backslash between two texts. */
  lemma {:induction false} BackslashThen(p: seq<char>, t: seq<char>)
    ensures p + [Backslash] + t == p + ([Backslash] + t)
    ensures ([Backslash] + t)[1..] == t && ([Backslash] + t)[0] == Backslash
  {
  }

  /** A backslash not followed by `(` or `)` is copied by the parenthesis rule. */
  lemma {:induction false} ParenMissCopied(p: seq<char>, t: seq<char>)
    requires Backslash !in p && !ParenAt([Backslash] + t)
    ensures Parens(p + [Backslash] + t) == p + [Backslash] + Parens(t)
  {
    var m := [Backslash] + t;
    ParensFreePrefix(p, m);
    assert m[1..] == t;
    assert p + [Backslash] + t == p + m;
  }

  /** `\(` and `\)` are deleted by the whole cleaning, in context. */
  lemma {:induction false} ParenCleaned(p: seq<char>, c: char, q: seq<char>)
    requires Backslash !in p && (c == '(' || c == ')')
    ensures CleanLatexSymbols(p + [Backslash, c] + q) == p + CleanLatexSymbols(q)
  {
    var t, u := [c] + q, Fracs(q);
    ParenNoFrac(c, q);
    ParenRegroup(p, c, q);
    ParenRegroup(p, c, u);
    FracMissCopied(p, t);
    FracsPlainHead(c, q);
    assert Fracs(p + [Backslash, c] + q) == p + [Backslash, c] + u;
    ParenDeleted(p, c, u);
  }

  /** `\(` and `\)` start no fraction. */
  lemma {:induction false} ParenNoFrac(c: char, q: seq<char>)
    requires c == '(' || c == ')'
    ensures FracAt([Backslash] + ([c] + q)).None?
  {
    var s := [Backslash] + ([c] + q);
    assert !HasPrefix(s, [Backslash, 'f', 'r', 'a', 'c']) by {
      if 5 <= |s| {
        assert s[..5][1] == s[1] == c;
      }
    }
  }

  /** Regrouping `\c` between two texts. */
  lemma {:induction false} ParenRegroup(p: seq<char>, c: char, q: seq<char>)
    ensures p + [Backslash] + ([c] + q) == p + [Backslash, c] + q
  {
  }

  /** A character other than a backslash is copied by the fraction rule. */
  lemma {:induction false} FracsPlainHead(c: char, q: seq<char>)
    requires c != Backslash
    ensures Fracs([c] + q) == [c] + Fracs(q)
  {
    assert ([c] + q)[1..] == q;
  }

  /** A backslash that starts neither a fraction nor `\(` or `\)`, such as
      the one of `\times`, is kept by the whole cleaning. */
  lemma {:induction false} CleanMissCopied(p: seq<char>, t: seq<char>)
    requires Backslash !in p && FracAt([Backslash] + t).None?
    requires t != [] && t[0] != Backslash && t[0] != '(' && t[0] != ')'
    ensures CleanLatexSymbols(p + [Backslash] + t) == p + [Backslash] + CleanLatexSymbols(t)
  {
    FracMissCopied(p, t);
    var u := Fracs(t);
    assert u == [t[0]] + Fracs(t[1..]);
    ParenMissCopied(p, u);
  }

  /** Deleting `\(` can join a backslash and a parenthesis into a new `\(`, so
      the cleaning is not idempotent: `\\((` becomes `\(`. */
  lemma {:induction false} ParensNotIdempotent()
    ensures Parens([Backslash, Backslash, '(', '(']) == [Backslash, '(']
    ensures Parens(Parens([Backslash, Backslash, '(', '('])) == []
  {
    var s := [Backslash, Backslash, '(', '('];
    assert !ParenAt(s);
    assert s[1..] == [Backslash, '(', '('];
    assert ParenAt(s[1..]);
    assert s[1..][2..] == ['('];
    assert ['('][1..] == [];
    assert Parens(['(']) == ['('];
    assert ParenAt([Backslash, '(']);
    assert [Backslash, '('][2..] == [];
  }
}
