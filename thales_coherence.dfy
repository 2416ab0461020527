/** The two text extractors of the Thalès solution coherence test: the point
    letters a solution step mentions, and the `(XY) // (ZW)` parallelisms it
    states. */
module ThalesCoherence {
  import opened TextChars
  import GeometryPoints

  // ---------------------------------------------------------------------
  // The regular expressions
  // ---------------------------------------------------------------------

  /** One element of a regular expression made of literal text, `([A-Z])`
      groups and `\s*` runs. */
  datatype Item = Lit(w: string) | Cap | Spaces

  /** Number of capturing groups. */
  function CapCount(items: seq<Item>): nat {
    if items == [] then 0 else (if items[0] == Cap then 1 else 0) + CapCount(items[1..])
  }

  /** A match: how many characters it consumes and what its groups captured. */
  datatype Match = Match(len: nat, caps: seq<char>)

  /** A match that consumed `n` more characters and captured `caps` before it. */
  function Extend(r: Option<Match>, n: nat, caps: seq<char>): Option<Match> {
    match r
    case Some(m) => Some(Match(m.len + n, caps + m.caps))
    case None => None
  }

  /** The expression starts with non-empty literal text, so it never matches
      the empty string. */
  predicate Anchored(items: seq<Item>) {
    items != [] && items[0].Lit? && items[0].w != []
  }

  /** The match of `items` at the start of `s`. A `\s*` run is taken whole:
      in the expressions here it is always followed by a character that is
      not a space, so the regex engine never backtracks into it. */
  function MatchItems(s: seq<char>, items: seq<Item>): (r: Option<Match>)
    ensures r.Some? ==> r.value.len <= |s|
    ensures r.Some? && Anchored(items) ==> r.value.len >= 1
    decreases items
  {
    if items == [] then Some(Match(0, []))
    else
      match items[0]
      case Lit(w) =>
        if HasPrefix(s, w) then Extend(MatchItems(s[|w|..], items[1..]), |w|, []) else None
      case Cap =>
        if s != [] && IsAsciiUpper(s[0]) then Extend(MatchItems(s[1..], items[1..]), 1, [s[0]]) else None
      case Spaces =>
        var n := SpaceRun(s);
        Extend(MatchItems(s[n..], items[1..]), n, [])
  }

  /** A match has one capture per group, each an ASCII capital of the text. */
  lemma {:induction false} MatchCaptures(s: seq<char>, items: seq<Item>)
    ensures var r := MatchItems(s, items);
      r.Some? ==> (|r.value.caps| == CapCount(items)
        && forall j :: 0 <= j < |r.value.caps| ==> IsAsciiUpper(r.value.caps[j]) && r.value.caps[j] in s)
    decreases items
  {
    if items != [] {
      var t := match items[0] case Lit(w) => if HasPrefix(s, w) then s[|w|..] else s
        case Cap => if s != [] then s[1..] else s
        case Spaces => s[SpaceRun(s)..];
      MatchCaptures(t, items[1..]);
      assert forall x :: x in t ==> x in s;
    }
  }

  /** Every captured character is an ASCII capital taken from `s`. */
  predicate CapturedFrom(ms: seq<seq<char>>, s: seq<char>) {
    forall k, j :: 0 <= k < |ms| && 0 <= j < |ms[k]| ==> IsAsciiUpper(ms[k][j]) && ms[k][j] in s
  }

  /** `re.findall`: the groups of the non-overlapping matches, left to right. */
  function FindAll(s: seq<char>, items: seq<Item>): (r: seq<seq<char>>)
    requires Anchored(items)
    ensures |r| <= |s|
    decreases |s|
  {
    if s == [] then []
    else
      match MatchItems(s, items)
      case Some(m) => [m.caps] + FindAll(s[m.len..], items)
      case None => FindAll(s[1..], items)
  }

  /** Every match of `findall` has one capture per group, each an ASCII
      capital of the text. */
  lemma {:induction false} FindAllCaptures(s: seq<char>, items: seq<Item>)
    requires Anchored(items)
    ensures forall k :: 0 <= k < |FindAll(s, items)| ==> |FindAll(s, items)[k]| == CapCount(items)
    ensures CapturedFrom(FindAll(s, items), s)
    decreases |s|
  {
    if s != [] {
      MatchCaptures(s, items);
      var t := match MatchItems(s, items) case Some(m) => s[m.len..] case None => s[1..];
      FindAllCaptures(t, items);
      assert forall x :: x in t ==> x in s;
    }
  }

  /** Where the text holds no first character of the expression, no match
      starts: `findall` skips the first `n` characters. */
  lemma {:induction false} FindAllSkipsUpTo(s: seq<char>, n: nat, items: seq<Item>)
    requires Anchored(items) && n <= |s|
    requires forall k :: 0 <= k < n ==> s[k] != items[0].w[0]
    ensures FindAll(s, items) == FindAll(s[n..], items)
    decreases n
  {
    if n > 0 {
      var w := items[0].w;
      assert !HasPrefix(s, w) by {
        if |w| <= |s| {
          assert s[..|w|][0] == s[0];
        }
      }
      assert FindAll(s, items) == FindAll(s[1..], items);
      FindAllSkipsUpTo(s[1..], n - 1, items);
      assert s[1..][n - 1..] == s[n..];
    } else {
      assert s[0..] == s;
    }
  }

  /** Text without the first character of the expression adds no match,
      whatever follows it. */
  lemma {:induction false} FindAllSkips(p: seq<char>, t: seq<char>, items: seq<Item>)
    requires Anchored(items) && items[0].w[0] !in p
    ensures FindAll(p + t, items) == FindAll(t, items)
  {
    var s := p + t;
    assert forall k :: 0 <= k < |p| ==> s[k] == p[k] && p[k] in p;
    FindAllSkipsUpTo(s, |p|, items);
    assert s[|p|..] == t;
  }

  /** A match at the start is reported, and the search resumes after it. */
  lemma {:induction false} FindAllStep(t: seq<char>, items: seq<Item>, m: Match)
    requires Anchored(items) && t != [] && MatchItems(t, items) == Some(m)
    ensures m.len <= |t| && FindAll(t, items) == [m.caps] + FindAll(t[m.len..], items)
  {
  }

  /** Where no match starts, nothing is reported and the search moves on by one. */
  lemma {:induction false} FindAllMiss(t: seq<char>, items: seq<Item>)
    requires Anchored(items) && t != [] && MatchItems(t, items).None?
    ensures FindAll(t, items) == FindAll(t[1..], items)
  {
  }

  /** A match of an anchored expression starts with its first character. */
  lemma MatchStarts(t: seq<char>, items: seq<Item>)
    requires Anchored(items)
    ensures MatchItems(t, items).Some? ==> t != [] && t[0] == items[0].w[0]
  {
    var w := items[0].w;
    if HasPrefix(t, w) {
      assert t[..|w|][0] == t[0];
    }
  }

  /** Soundness of `findall`: every reported tuple is the groups of a match
      that starts somewhere in the text. */
  lemma {:induction false} FindAllSound(s: seq<char>, items: seq<Item>, k: nat)
    requires Anchored(items) && k < |FindAll(s, items)|
    ensures exists i :: (0 <= i < |s| && MatchItems(s[i..], items).Some?
      && MatchItems(s[i..], items).value.caps == FindAll(s, items)[k])
    decreases |s|
  {
    match MatchItems(s, items)
    case Some(m) =>
      if k == 0 {
        assert s[0..] == s;
      } else {
        var t := s[m.len..];
        FindAllSound(t, items, k - 1);
        var i :| 0 <= i < |t| && MatchItems(t[i..], items).Some?
          && MatchItems(t[i..], items).value.caps == FindAll(t, items)[k - 1];
        assert t[i..] == s[m.len + i..];
      }
    case None =>
      var t := s[1..];
      FindAllSound(t, items, k);
      var i :| 0 <= i < |t| && MatchItems(t[i..], items).Some?
        && MatchItems(t[i..], items).value.caps == FindAll(t, items)[k];
      assert t[i..] == s[1 + i..];
  }

  /** Text without an ASCII capital has no match of an expression with a group. */
  lemma NoCapitalsNoMatch(s: seq<char>, items: seq<Item>)
    requires Anchored(items) && CapCount(items) > 0
    ensures (forall i :: 0 <= i < |s| ==> !IsAsciiUpper(s[i])) ==> FindAll(s, items) == []
  {
    FindAllCaptures(s, items);
    var r := FindAll(s, items);
    if r != [] {
      var c := r[0][0];
      assert c in s && IsAsciiUpper(c);
    }
  }

  // ---------------------------------------------------------------------
  // extraire_points_geometriques
  // ---------------------------------------------------------------------

  /** `\b([A-Z])\b`, or an expression made of items. */
  datatype Pattern = Isolated | Template(items: seq<Item>)

  predicate WellFormed(p: Pattern) {
    p.Template? ==> Anchored(p.items)
  }

  /** `\(([A-Z])([A-Z])\)`: a line named by two letters in parentheses. */
  const LineItems: seq<Item> := [Lit("("), Cap, Cap, Lit(")")]

  /** The point expressions, in the order they are applied: an isolated
      capital, `point X`, `segment [XY]`, `triangle XYZ` and `(XY)`. */
  const PointPatterns: seq<Pattern> := [
    Isolated,
    Template([Lit("point "), Cap]),
    Template([Lit("segment ["), Cap, Cap, Lit("]")]),
    Template([Lit("triangle "), Cap, Cap, Cap]),
    Template(LineItems)
  ]

  lemma PointPatternsWellFormed()
    ensures forall k :: 0 <= k < |PointPatterns| ==> WellFormed(PointPatterns[k])
  {
  }

  /** The match groups of one expression over the text; an isolated capital
      gives a one-letter group. */
  function Matches(s: seq<char>, p: Pattern): seq<seq<char>>
    requires WellFormed(p)
  {
    match p
    case Isolated =>
      var letters := GeometryPoints.IsolatedFrom(s, 0);
      seq(|letters|, k requires 0 <= k < |letters| => [letters[k]])
    case Template(items) => FindAll(s, items)
  }

  /** `c` is captured by a match of `p` that starts somewhere in `s`: an
      isolated capital, or a group of a match of the template. */
  predicate CapturedAt(s: seq<char>, p: Pattern, c: char) {
    match p
    case Isolated => GeometryPoints.IsolatedLetter(s, c)
    case Template(items) =>
      exists i :: 0 <= i < |s| && MatchItems(s[i..], items).Some? && c in MatchItems(s[i..], items).value.caps
  }

  /** Every letter of every reported tuple is captured by a match in the text. */
  lemma {:induction false} MatchesSound(s: seq<char>, p: Pattern, n: nat, j: nat)
    requires WellFormed(p) && n < |Matches(s, p)| && j < |Matches(s, p)[n]|
    ensures CapturedAt(s, p, Matches(s, p)[n][j])
  {
    match p
    case Isolated =>
      var letters := GeometryPoints.IsolatedFrom(s, 0);
      assert Matches(s, p)[n][j] == letters[n] && letters[n] in letters;
    case Template(items) =>
      FindAllSound(s, items, n);
      var i :| 0 <= i < |s| && MatchItems(s[i..], items).Some?
        && MatchItems(s[i..], items).value.caps == FindAll(s, items)[n];
      assert Matches(s, p)[n][j] in MatchItems(s[i..], items).value.caps;
  }

  lemma MatchesCaptured(s: seq<char>, p: Pattern)
    requires WellFormed(p)
    ensures CapturedFrom(Matches(s, p), s)
  {
    match p
    case Isolated =>
      var letters := GeometryPoints.IsolatedFrom(s, 0);
      var r := Matches(s, p);
      forall k, j | 0 <= k < |r| && 0 <= j < |r[k]| ensures IsAsciiUpper(r[k][j]) && r[k][j] in s {
        assert r[k][j] == letters[k] && letters[k] in letters;
      }
    case Template(items) => FindAllCaptures(s, items);
  }

  /** The letters of one group tuple that pass `m.isupper()`, as strings. */
  function Letters(tuple: seq<char>): set<string> {
    set j | 0 <= j < |tuple| && IsUpperChar(tuple[j]) :: [tuple[j]]
  }

  /** The letters of a list of tuples, in the order `points.update` adds them. */
  function TupleLetters(ms: seq<seq<char>>): set<string> {
    if ms == [] then {} else TupleLetters(ms[..|ms| - 1]) + Letters(ms[|ms| - 1])
  }

  /** The letters every expression of `pats` contributes. */
  function LettersOf(s: seq<char>, pats: seq<Pattern>): set<string>
    requires forall k :: 0 <= k < |pats| ==> WellFormed(pats[k])
  {
    if pats == [] then {} else LettersOf(s, pats[..|pats| - 1]) + TupleLetters(Matches(s, pats[|pats| - 1]))
  }

  /** The words removed from the result. */
  const MotsExclus: set<string> := {"I", "L", "On", "Le", "La", "Les", "Un", "Une", "De", "Du", "Des", "En"}

  /** What the extractor returns. */
  function PointsOf(s: seq<char>): set<string> {
    PointPatternsWellFormed();
    LettersOf(s, PointPatterns) - MotsExclus
  }

  /** A one-letter string that is an ASCII capital of `s`. */
  predicate CapitalOf(p: string, s: seq<char>) {
    |p| == 1 && IsAsciiUpper(p[0]) && p[0] in s
  }

  lemma {:induction false} TupleLettersAreCapitals(ms: seq<seq<char>>, s: seq<char>)
    requires CapturedFrom(ms, s)
    ensures forall p :: p in TupleLetters(ms) ==> CapitalOf(p, s)
    ensures forall k, j :: 0 <= k < |ms| && 0 <= j < |ms[k]| ==> [ms[k][j]] in TupleLetters(ms)
  {
    if ms != [] {
      var init := ms[..|ms| - 1];
      assert CapturedFrom(init, s) by {
        forall k, j | 0 <= k < |init| && 0 <= j < |init[k]| ensures IsAsciiUpper(init[k][j]) && init[k][j] in s {
          assert init[k] == ms[k];
        }
      }
      TupleLettersAreCapitals(init, s);
      forall k, j | 0 <= k < |ms| && 0 <= j < |ms[k]| ensures [ms[k][j]] in TupleLetters(ms) {
        if k < |ms| - 1 {
          assert ms[k] == init[k];
        } else {
          assert IsUpperChar(ms[k][j]);
        }
      }
    }
  }

  lemma {:induction false} LettersOfAreCapitals(s: seq<char>, pats: seq<Pattern>)
    requires forall k :: 0 <= k < |pats| ==> WellFormed(pats[k])
    ensures forall p :: p in LettersOf(s, pats) ==> CapitalOf(p, s)
  {
    if pats != [] {
      LettersOfAreCapitals(s, pats[..|pats| - 1]);
      MatchesCaptured(s, pats[|pats| - 1]);
      TupleLettersAreCapitals(Matches(s, pats[|pats| - 1]), s);
    }
  }

  /** Only `I` and `L` of the excluded words can ever be removed: the others
      have two or three letters. */
  lemma ExclusionRemovesIAndL(x: set<string>)
    requires forall p :: p in x ==> |p| == 1
    ensures x - MotsExclus == x - {"I", "L"}
  {
  }

  predicate Kept(p: string, s: seq<char>) { CapitalOf(p, s) && p[0] != 'I' && p[0] != 'L' }

  /** The result holds single ASCII capitals of the text, never `I` or `L`. */
  lemma PointsAreCapitals(s: seq<char>)
    ensures forall p :: p in PointsOf(s) ==> Kept(p, s)
  {
    PointPatternsWellFormed();
    LettersOfAreCapitals(s, PointPatterns);
    forall p | p in PointsOf(s) ensures Kept(p, s) {
      assert p == [p[0]] && p !in MotsExclus;
    }
  }

  /** Every isolated capital of the text other than `I` and `L` is a point. */
  lemma IsolatedCapitalsAreFound(s: seq<char>, i: int)
    requires GeometryPoints.IsolatedAt(s, i) && s[i] != 'I' && s[i] != 'L'
    ensures [s[i]] in PointsOf(s)
  {
    PointPatternsWellFormed();
    var ms := Matches(s, Isolated);
    var letters := GeometryPoints.IsolatedFrom(s, 0);
    assert s[i] in letters;
    var k :| 0 <= k < |letters| && letters[k] == s[i];
    assert ms[k] == [s[i]];
    MatchesCaptured(s, Isolated);
    TupleLettersAreCapitals(ms, s);
    LettersOfContains(s, PointPatterns, 0);
    assert ms[k][0] == s[i];
    assert [s[i]] in TupleLetters(ms);
    assert PointPatterns[0] == Isolated;
    assert [s[i]] in LettersOf(s, PointPatterns);
    assert [s[i]] !in MotsExclus;
  }

  /** A letter of a tuple found by one of the point expressions is a point,
      unless it is `I` or `L`. */
  lemma {:induction false} TupleLetterFound(s: seq<char>, k: nat, n: nat, j: nat)
    requires k < |PointPatterns|
    requires WellFormed(PointPatterns[k]) && n < |Matches(s, PointPatterns[k])|
    requires j < |Matches(s, PointPatterns[k])[n]|
    requires Matches(s, PointPatterns[k])[n][j] != 'I' && Matches(s, PointPatterns[k])[n][j] != 'L'
    ensures [Matches(s, PointPatterns[k])[n][j]] in PointsOf(s)
  {
    PointPatternsWellFormed();
    var ms := Matches(s, PointPatterns[k]);
    MatchesCaptured(s, PointPatterns[k]);
    TupleLettersAreCapitals(ms, s);
    LettersOfContains(s, PointPatterns, k);
    var c := ms[n][j];
    assert [c] in TupleLetters(ms);
    assert [c] in LettersOf(s, PointPatterns);
    OneLetterKept(c);
  }

  /** A one-letter string is excluded only when it is `I` or `L`. */
  lemma OneLetterKept(c: char)
    requires c != 'I' && c != 'L'
    ensures [c] !in MotsExclus
  {
    assert |[c]| == 1;
  }

  /** A match of a point expression, after text holding none of its first
      character, contributes its letters other than `I` and `L` to the result. */
  lemma {:induction false} TemplateFound(p: seq<char>, t: seq<char>, k: nat, m: Match)
    requires 1 <= k < |PointPatterns|
    requires PointPatterns[k].items[0].w[0] !in p
    requires MatchItems(t, PointPatterns[k].items) == Some(m)
    ensures forall j :: 0 <= j < |m.caps| && m.caps[j] != 'I' && m.caps[j] != 'L' ==> [m.caps[j]] in PointsOf(p + t)
  {
    PointPatternsWellFormed();
    var s, items := p + t, PointPatterns[k].items;
    FindAllSkips(p, t, items);
    FindAllStep(t, items, m);
    var ms := Matches(s, PointPatterns[k]);
    assert ms == FindAll(s, items) && ms[0] == m.caps;
    forall j | 0 <= j < |m.caps| && m.caps[j] != 'I' && m.caps[j] != 'L' ensures [m.caps[j]] in PointsOf(s) {
      TupleLetterFound(s, k, 0, j);
    }
  }

  /** `point X` gives the point X. */
  lemma PointWordFound(p: seq<char>, x: char, q: seq<char>)
    requires 'p' !in p && IsAsciiUpper(x) && x != 'I' && x != 'L'
    ensures [x] in PointsOf(p + "point " + [x] + q)
  {
    var t := "point " + [x] + q;
    assert t[6..][1..] == q && t[6..][0] == x;
    CapThen(t[6..], [], Match(0, []));
    assert [Cap] + [] == [Cap] && [x] + [] == [x];
    assert t[..6] == "point " && t[6..] == [x] + q;
    LitThen(t, "point ", [Cap], Match(1, [x]));
    assert PointPatterns[1].items == [Lit("point ")] + [Cap];
    TemplateFound(p, t, 1, Match(7, [x]));
    assert [x][0] == x;
    assert p + "point " + [x] + q == p + t;
  }

  /** Literal text is a prefix of itself followed by anything. */
  lemma LitPrefix(w: seq<char>, r: seq<char>)
    ensures HasPrefix(w + r, w) && (w + r)[|w|..] == r
  {
    assert (w + r)[..|w|] == w;
  }

  /** `segment [XY]` matches its expression, whatever follows it. */
  lemma SegmentMatches(x: char, y: char, q: seq<char>)
    requires IsAsciiUpper(x) && IsAsciiUpper(y)
    ensures MatchItems("segment [" + [x, y] + "]" + q, PointPatterns[2].items) == Some(Match(12, [x, y]))
  {
    var u := [x, y] + ("]" + q);
    assert u[2..] == "]" + q;
    LitPrefix("]", q);
    LitThen(u[2..], "]", [], Match(0, []));
    assert [Lit("]")] + [] == [Lit("]")];
    assert u[1..][0] == y && u[1..][1..] == u[2..];
    CapThen(u[1..], [Lit("]")], Match(1, []));
    assert u[0] == x && [y] + [] == [y];
    CapThen(u, [Cap] + [Lit("]")], Match(2, [y]));
    LitPrefix("segment [", u);
    LitThen("segment [" + u, "segment [", [Cap] + ([Cap] + [Lit("]")]), Match(3, [x] + [y]));
    assert PointPatterns[2].items == [Lit("segment [")] + ([Cap] + ([Cap] + [Lit("]")]));
    assert [x] + [y] == [x, y];
    assert "segment [" + [x, y] + "]" + q == "segment [" + u;
  }

  /** `segment [XY]` gives the points X and Y. */
  lemma SegmentFound(p: seq<char>, x: char, y: char, q: seq<char>)
    requires 's' !in p && IsAsciiUpper(x) && IsAsciiUpper(y)
    ensures x != 'I' && x != 'L' ==> [x] in PointsOf(p + "segment [" + [x, y] + "]" + q)
    ensures y != 'I' && y != 'L' ==> [y] in PointsOf(p + "segment [" + [x, y] + "]" + q)
  {
    var t := "segment [" + [x, y] + "]" + q;
    SegmentMatches(x, y, q);
    TemplateFound(p, t, 2, Match(12, [x, y]));
    assert [x, y][0] == x && [x, y][1] == y;
    assert p + "segment [" + [x, y] + "]" + q == p + t;
  }

  /** `triangle XYZ` matches its expression, whatever follows it. */
  lemma TriangleMatches(x: char, y: char, z: char, q: seq<char>)
    requires IsAsciiUpper(x) && IsAsciiUpper(y) && IsAsciiUpper(z)
    ensures MatchItems("triangle " + [x, y, z] + q, PointPatterns[3].items) == Some(Match(12, [x, y, z]))
  {
    var t := "triangle " + [x, y, z] + q;
    var u := t[9..];
    assert u[2..][0] == z && u[2..][1..] == q;
    CapThen(u[2..], [], Match(0, []));
    assert [Cap] + [] == [Cap] && [z] + [] == [z];
    assert u[1..][0] == y && u[1..][1..] == u[2..];
    CapThen(u[1..], [Cap], Match(1, [z]));
    assert u[0] == x;
    CapThen(u, [Cap] + [Cap], Match(2, [y] + [z]));
    assert t[..9] == "triangle ";
    LitThen(t, "triangle ", [Cap] + ([Cap] + [Cap]), Match(3, [x] + ([y] + [z])));
    assert PointPatterns[3].items == [Lit("triangle ")] + ([Cap] + ([Cap] + [Cap]));
    assert [x] + ([y] + [z]) == [x, y, z];
  }

  /** `triangle XYZ` gives the points X, Y and Z. */
  lemma TriangleFound(p: seq<char>, x: char, y: char, z: char, q: seq<char>)
    requires 't' !in p && IsAsciiUpper(x) && IsAsciiUpper(y) && IsAsciiUpper(z)
    ensures x != 'I' && x != 'L' ==> [x] in PointsOf(p + "triangle " + [x, y, z] + q)
    ensures y != 'I' && y != 'L' ==> [y] in PointsOf(p + "triangle " + [x, y, z] + q)
    ensures z != 'I' && z != 'L' ==> [z] in PointsOf(p + "triangle " + [x, y, z] + q)
  {
    var t := "triangle " + [x, y, z] + q;
    TriangleMatches(x, y, z, q);
    TemplateFound(p, t, 3, Match(12, [x, y, z]));
    assert [x, y, z][0] == x && [x, y, z][1] == y && [x, y, z][2] == z;
    assert p + "triangle " + [x, y, z] + q == p + t;
  }

  /** `(XY)` gives the points X and Y. */
  lemma LineFound(p: seq<char>, x: char, y: char, q: seq<char>)
    requires '(' !in p && IsAsciiUpper(x) && IsAsciiUpper(y)
    ensures x != 'I' && x != 'L' ==> [x] in PointsOf(p + ['(', x, y, ')'] + q)
    ensures y != 'I' && y != 'L' ==> [y] in PointsOf(p + ['(', x, y, ')'] + q)
  {
    var t := ['(', x, y, ')'] + q;
    PairMatches(x, y, q);
    assert PointPatterns[4].items == LineItems;
    TemplateFound(p, t, 4, Match(4, [x, y]));
    assert [x, y][0] == x && [x, y][1] == y;
    assert p + ['(', x, y, ')'] + q == p + t;
  }

  /** Each expression's letters are part of the whole. */
  lemma {:induction false} LettersOfContains(s: seq<char>, pats: seq<Pattern>, k: nat)
    requires forall j :: 0 <= j < |pats| ==> WellFormed(pats[j])
    requires k < |pats|
    ensures TupleLetters(Matches(s, pats[k])) <= LettersOf(s, pats)
  {
    if k < |pats| - 1 {
      assert pats[..|pats| - 1][k] == pats[k];
      LettersOfContains(s, pats[..|pats| - 1], k);
    }
  }

  /** Text with no ASCII capital has no point. */
  lemma NoCapitalsNoPoints(s: seq<char>)
    requires forall i :: 0 <= i < |s| ==> !IsAsciiUpper(s[i])
    ensures PointsOf(s) == {}
  {
    PointPatternsWellFormed();
    LettersOfAreCapitals(s, PointPatterns);
  }

  /** Every letter collected from a list of tuples is one of their letters. */
  lemma {:induction false} TupleLettersSound(ms: seq<seq<char>>, x: string)
    requires x in TupleLetters(ms)
    ensures exists n, j :: 0 <= n < |ms| && 0 <= j < |ms[n]| && x == [ms[n][j]]
  {
    var init := ms[..|ms| - 1];
    if x in TupleLetters(init) {
      TupleLettersSound(init, x);
      var n, j :| 0 <= n < |init| && 0 <= j < |init[n]| && x == [init[n][j]];
      assert init[n] == ms[n];
    } else {
      assert x in Letters(ms[|ms| - 1]);
    }
  }

  /** Every collected letter is captured by a match of one of the expressions. */
  lemma {:induction false} LettersOfSound(s: seq<char>, pats: seq<Pattern>, x: string)
    requires forall k :: 0 <= k < |pats| ==> WellFormed(pats[k])
    requires x in LettersOf(s, pats)
    ensures |x| == 1 && exists k :: 0 <= k < |pats| && CapturedAt(s, pats[k], x[0])
  {
    var init := pats[..|pats| - 1];
    if x in LettersOf(s, init) {
      LettersOfSound(s, init, x);
      var k :| 0 <= k < |init| && CapturedAt(s, init[k], x[0]);
      assert init[k] == pats[k];
    } else {
      var last := |pats| - 1;
      TupleLettersSound(Matches(s, pats[last]), x);
      var n, j :| 0 <= n < |Matches(s, pats[last])| && 0 <= j < |Matches(s, pats[last])[n]|
        && x == [Matches(s, pats[last])[n][j]];
      MatchesSound(s, pats[last], n, j);
    }
  }

  /** Soundness of the extractor: each point is one letter, neither `I` nor
      `L`, that an expression captured somewhere in the text. */
  lemma PointsSound(s: seq<char>)
    ensures forall x :: x in PointsOf(s) ==> (|x| == 1 && x[0] != 'I' && x[0] != 'L'
      && exists k :: 0 <= k < |PointPatterns| && CapturedAt(s, PointPatterns[k], x[0]))
  {
    PointPatternsWellFormed();
    forall x | x in PointsOf(s)
      ensures |x| == 1 && x[0] != 'I' && x[0] != 'L'
        && exists k :: 0 <= k < |PointPatterns| && CapturedAt(s, PointPatterns[k], x[0])
    {
      LettersOfSound(s, PointPatterns, x);
      assert x == [x[0]] && x !in MotsExclus;
    }
  }

  /** No expression captures anything in `Donc`: its `D` is part of a word and
      no template's first character occurs in it. */
  lemma DoncCapturesNothing(k: nat, c: char)
    requires k < |PointPatterns|
    ensures !CapturedAt("Donc", PointPatterns[k], c)
  {
    var s := "Donc";
    if k == 0 {
      forall i | 0 <= i < |s| ensures !GeometryPoints.IsolatedAt(s, i) {
        if i == 0 {
          assert IsWordChar(s[1]);
        }
      }
    } else {
      var items := PointPatterns[k].items;
      PointPatternsWellFormed();
      forall i | 0 <= i < |s| ensures MatchItems(s[i..], items).None? {
        MatchStarts(s[i..], items);
        assert s[i..][0] == s[i];
      }
    }
  }

  /** `Donc` mentions no point. */
  lemma DoncHasNoPoints()
    ensures PointsOf("Donc") == {}
  {
    PointsSound("Donc");
    forall k, c | 0 <= k < |PointPatterns| ensures !CapturedAt("Donc", PointPatterns[k], c) {
      DoncCapturesNothing(k, c);
    }
  }

  /** The inner loop: adds the letters of every match tuple to `points`. */
  method AddMatchLetters(points: set<string>, matches: seq<seq<char>>) returns (r: set<string>)
    ensures r == points + TupleLetters(matches)
  {
    r := points;
    for j := 0 to |matches|
      invariant r == points + TupleLetters(matches[..j])
    {
      assert matches[..j + 1][..j] == matches[..j];
      r := r + Letters(matches[j]);
    }
    assert matches[..|matches|] == matches;
  }

  /** The outer loop: applies each expression in turn. */
  method CollectLetters(texte: string, patterns: seq<Pattern>) returns (points: set<string>)
    requires forall k :: 0 <= k < |patterns| ==> WellFormed(patterns[k])
    ensures points == LettersOf(texte, patterns)
  {
    points := {};
    for k := 0 to |patterns|
      invariant points == LettersOf(texte, patterns[..k])
    {
      assert patterns[..k + 1][..k] == patterns[..k];
      var matches := Matches(texte, patterns[k]);
      points := AddMatchLetters(points, matches);
    }
    assert patterns[..|patterns|] == patterns;
  }

  /** `extraire_points_geometriques`: the letters of every match of every
      expression, less the excluded words. */
  method ExtrairePointsGeometriques(texte: string) returns (points: set<string>)
    ensures points == PointsOf(texte)
    ensures forall p :: p in points ==> Kept(p, texte)
    ensures forall p :: p in points ==> |p| == 1 && exists k :: 0 <= k < |PointPatterns| && CapturedAt(texte, PointPatterns[k], p[0])
  {
    PointPatternsWellFormed();
    points := CollectLetters(texte, PointPatterns);
    assert points == LettersOf(texte, PointPatterns);
    points := points - MotsExclus;
    assert points == PointsOf(texte);
    PointsAreCapitals(texte);
    PointsSound(texte);
  }

  // ---------------------------------------------------------------------
  // extraire_parallelisme
  // ---------------------------------------------------------------------

  // The separator `\s*//\s*` between the two lines.
  const Separator: seq<Item> := [Spaces, Lit("//"), Spaces]

  // The expression `\(([A-Z])([A-Z])\)\s*//\s*\(([A-Z])([A-Z])\)`.
  const ParallelItems: seq<Item> := LineItems + (Separator + LineItems)

  /** Groups of a concatenated expression add up. */
  lemma {:induction false} CapCountAppend(a: seq<Item>, b: seq<Item>)
    ensures CapCount(a + b) == CapCount(a) + CapCount(b)
  {
    if a == [] {
      assert a + b == b;
    } else {
      assert (a + b)[1..] == a[1..] + b;
      CapCountAppend(a[1..], b);
    }
  }

  lemma ParallelItemsShape()
    ensures Anchored(ParallelItems) && CapCount(ParallelItems) == 4
  {
    assert CapCount(LineItems) == 2 by {
      assert LineItems[1..] == [Cap, Cap, Lit(")")];
      assert LineItems[1..][1..] == [Cap, Lit(")")];
      assert LineItems[1..][1..][1..] == [Lit(")")];
    }
    assert CapCount(Separator) == 0 by {
      assert Separator[1..] == [Lit("//"), Spaces];
      assert Separator[1..][1..] == [Spaces];
    }
    CapCountAppend(Separator, LineItems);
    CapCountAppend(LineItems, Separator + LineItems);
  }

  /** One parallelism: the two lines and the set of their letters. */
  datatype Parallel = Parallel(segment1: string, segment2: string, points: set<string>)

  /** The record built from the four groups of a match. */
  function ParallelOf(caps: seq<char>): (r: Parallel)
    requires |caps| == 4
    ensures r.segment1 + r.segment2 == caps && |r.segment1| == 2
    ensures forall p :: p in r.points <==> exists j :: 0 <= j < 4 && p == [caps[j]]
    ensures 1 <= |r.points| <= 4
  {
    var a, b, c, d := [caps[0]], [caps[1]], [caps[2]], [caps[3]];
    var points := {a, b, c, d};
    assert |{a, b}| <= 2 && |{a, b} + {c}| <= 3;
    assert points == {a, b} + {c} + {d};
    assert a in points;
    Parallel([caps[0], caps[1]], [caps[2], caps[3]], points)
  }

  /** Every match has four groups. */
  predicate Quads(ms: seq<seq<char>>) {
    forall k :: 0 <= k < |ms| ==> |ms[k]| == 4
  }

  /** The records of a list of matches, in order. */
  function RecordsOf(ms: seq<seq<char>>): (r: seq<Parallel>)
    requires Quads(ms)
    ensures |r| == |ms|
  {
    if ms == [] then [] else RecordsOf(ms[..|ms| - 1]) + [ParallelOf(ms[|ms| - 1])]
  }

  lemma {:induction false} RecordsOfAt(ms: seq<seq<char>>, k: nat)
    requires Quads(ms) && k < |ms|
    ensures RecordsOf(ms)[k] == ParallelOf(ms[k])
  {
    if k < |ms| - 1 {
      RecordsOfAt(ms[..|ms| - 1], k);
    }
  }

  /** The parallelisms of a text, in text order. */
  function ParallelsOf(s: seq<char>): seq<Parallel> {
    ParallelItemsShape();
    FindAllCaptures(s, ParallelItems);
    RecordsOf(FindAll(s, ParallelItems))
  }

  /** Each record names two lines of two ASCII capitals of the text, and its
      point set holds those four letters, so between one and four points. */
  lemma ParallelsAreCapitals(s: seq<char>, k: nat)
    requires k < |ParallelsOf(s)|
    ensures var r := ParallelsOf(s)[k];
      && |r.segment1| == 2 && |r.segment2| == 2 && 1 <= |r.points| <= 4
      && (forall j :: 0 <= j < 2 ==> CapitalOf([r.segment1[j]], s) && CapitalOf([r.segment2[j]], s))
      && (forall p :: p in r.points <==> p == [r.segment1[0]] || p == [r.segment1[1]] || p == [r.segment2[0]] || p == [r.segment2[1]])
  {
    ParallelItemsShape();
    FindAllCaptures(s, ParallelItems);
    var ms := FindAll(s, ParallelItems);
    RecordsOfAt(ms, k);
    var r := ParallelOf(ms[k]);
    assert r.segment1 == ms[k][..2] && r.segment2 == ms[k][2..];
    forall j | 0 <= j < 2 ensures CapitalOf([r.segment1[j]], s) && CapitalOf([r.segment2[j]], s) {
      assert r.segment1[j] == ms[k][j] && r.segment2[j] == ms[k][j + 2];
    }
  }

  /** Text with no ASCII capital states no parallelism. */
  lemma NoCapitalsNoParallels(s: seq<char>)
    ensures (forall i :: 0 <= i < |s| ==> !IsAsciiUpper(s[i])) ==> ParallelsOf(s) == []
  {
    ParallelItemsShape();
    NoCapitalsNoMatch(s, ParallelItems);
  }

  /** `(AB) // (CD)` as written in a solution step. */
  function ParallelText(a: char, b: char, c: char, d: char): seq<char> {
    ['(', a, b, ')'] + [' ', '/', '/', ' '] + ['(', c, d, ')']
  }

  lemma LitThen(s: seq<char>, w: string, items: seq<Item>, m: Match)
    requires HasPrefix(s, w) && MatchItems(s[|w|..], items) == Some(m)
    ensures MatchItems(s, [Lit(w)] + items) == Some(Match(m.len + |w|, m.caps))
  {
    assert ([Lit(w)] + items)[1..] == items;
    assert [] + m.caps == m.caps;
  }

  lemma CapThen(s: seq<char>, items: seq<Item>, m: Match)
    requires s != [] && IsAsciiUpper(s[0]) && MatchItems(s[1..], items) == Some(m)
    ensures MatchItems(s, [Cap] + items) == Some(Match(m.len + 1, [s[0]] + m.caps))
  {
    assert ([Cap] + items)[1..] == items;
  }

  lemma SpaceThen(s: seq<char>, items: seq<Item>, m: Match)
    requires |s| >= 2 && IsSpace(s[0]) && !IsSpace(s[1]) && MatchItems(s[1..], items) == Some(m)
    ensures MatchItems(s, [Spaces] + items) == Some(Match(m.len + 1, m.caps))
  {
    assert ([Spaces] + items)[1..] == items;
    assert SpaceRun(s[1..]) == 0;
    assert [] + m.caps == m.caps;
  }

  /** `(CD)` matches `\(([A-Z])([A-Z])\)`, whatever follows it. */
  lemma PairMatches(c: char, d: char, q: seq<char>)
    requires IsAsciiUpper(c) && IsAsciiUpper(d)
    ensures MatchItems(['(', c, d, ')'] + q, LineItems) == Some(Match(4, [c, d]))
  {
    var s := ['(', c, d, ')'] + q;
    assert s[4..] == q;
    assert MatchItems(q, []) == Some(Match(0, []));
    FirstLineMatches(s, [], Match(0, []));
    assert LineItems + [] == LineItems && [c, d] + [] == [c, d];
  }

  /** ` // (CD)` matches the items after the first line, whatever follows it. */
  lemma SecondLineMatches(c: char, d: char, q: seq<char>)
    requires IsAsciiUpper(c) && IsAsciiUpper(d)
    ensures MatchItems([' ', '/', '/', ' ', '(', c, d, ')'] + q, Separator + LineItems) == Some(Match(8, [c, d]))
  {
    var s := [' ', '/', '/', ' ', '(', c, d, ')'] + q;
    var pair := LineItems;
    PairMatches(c, d, q);
    assert s[3..][1..] == ['(', c, d, ')'] + q;
    SpaceThen(s[3..], pair, Match(4, [c, d]));
    assert s[1..][2..] == s[3..];
    LitThen(s[1..], "//", [Spaces] + pair, Match(5, [c, d]));
    SpaceThen(s, [Lit("//")] + ([Spaces] + pair), Match(7, [c, d]));
    assert [Spaces] + ([Lit("//")] + ([Spaces] + pair)) == Separator + LineItems;
  }

  /** `(AB` followed by text that the rest of the expression matches. */
  lemma FirstLineMatches(s: seq<char>, rest: seq<Item>, m: Match)
    requires |s| >= 4 && s[0] == '(' && IsAsciiUpper(s[1]) && IsAsciiUpper(s[2]) && s[3] == ')'
    requires MatchItems(s[4..], rest) == Some(m)
    ensures MatchItems(s, LineItems + rest) == Some(Match(m.len + 4, [s[1], s[2]] + m.caps))
  {
    FirstLineSteps(s, rest, m);
    LineItemsThen(rest);
  }

  /** The same match, taken one item at a time. */
  lemma FirstLineSteps(s: seq<char>, rest: seq<Item>, m: Match)
    requires |s| >= 4 && s[0] == '(' && IsAsciiUpper(s[1]) && IsAsciiUpper(s[2]) && s[3] == ')'
    requires MatchItems(s[4..], rest) == Some(m)
    ensures MatchItems(s, [Lit("(")] + ([Cap] + ([Cap] + ([Lit(")")] + rest))))
      == Some(Match(m.len + 4, [s[1], s[2]] + m.caps))
  {
    var i3 := [Lit(")")] + rest;
    var i2 := [Cap] + i3;
    var i1 := [Cap] + i2;
    assert s[3..][..1] == ")" && s[3..][1..] == s[4..];
    LitThen(s[3..], ")", rest, m);
    assert s[2..][1..] == s[3..];
    CapThen(s[2..], i3, Match(m.len + 1, m.caps));
    assert s[1..][1..] == s[2..];
    CapThen(s[1..], i2, Match(m.len + 2, [s[2]] + m.caps));
    assert s[..1] == "(" && |"("| == 1;
    var caps := [s[1]] + ([s[2]] + m.caps);
    LitThen(s, "(", i1, Match(m.len + 3, caps));
    assert caps == [s[1], s[2]] + m.caps;
  }

  /** The line items followed by `rest`, one item at a time. */
  lemma LineItemsThen(rest: seq<Item>)
    ensures LineItems + rest == [Lit("(")] + ([Cap] + ([Cap] + ([Lit(")")] + rest)))
  {
    var items, nested := LineItems + rest, [Lit("(")] + ([Cap] + ([Cap] + ([Lit(")")] + rest)));
    assert |items| == |nested|;
    forall i | 0 <= i < |items| ensures items[i] == nested[i] {
      if i >= 4 {
        assert items[i] == rest[i - 4];
      }
    }
  }

  /** The whole of `(AB) // (CD)` matches, with its four letters as groups,
      whatever follows it. */
  lemma ParallelTextMatches(a: char, b: char, c: char, d: char, q: seq<char>)
    requires IsAsciiUpper(a) && IsAsciiUpper(b) && IsAsciiUpper(c) && IsAsciiUpper(d)
    ensures MatchItems(ParallelText(a, b, c, d) + q, ParallelItems) == Some(Match(12, [a, b, c, d]))
  {
    var s := ParallelText(a, b, c, d) + q;
    var rest := Separator + LineItems;
    var tail := [' ', '/', '/', ' ', '(', c, d, ')'] + q;
    assert s[4..] == tail;
    SecondLineMatches(c, d, q);
    FirstLineMatches(s, rest, Match(8, [c, d]));
    assert [s[1], s[2]] + [c, d] == [a, b, c, d];
    assert MatchItems(s, ParallelItems) == Some(Match(12, [a, b, c, d]));
  }

  /** Extracting from `(AB) // (CD)` gives back the two lines. */
  lemma ParallelRoundTrip(a: char, b: char, c: char, d: char)
    requires IsAsciiUpper(a) && IsAsciiUpper(b) && IsAsciiUpper(c) && IsAsciiUpper(d)
    ensures ParallelsOf(ParallelText(a, b, c, d)) == [Parallel([a, b], [c, d], {[a], [b], [c], [d]})]
  {
    var s := ParallelText(a, b, c, d);
    ParallelItemsShape();
    ParallelTextMatches(a, b, c, d, []);
    assert s + [] == s;
    assert s[12..] == [];
    assert FindAll(s, ParallelItems) == [[a, b, c, d]];
  }

  /** The records of a match followed by more matches. */
  lemma RecordsOfCons(x: seq<char>, ms: seq<seq<char>>)
    requires |x| == 4 && Quads(ms)
    ensures Quads([x] + ms) && RecordsOf([x] + ms) == [ParallelOf(x)] + RecordsOf(ms)
  {
    var all := [x] + ms;
    assert Quads(all) by {
      forall k | 0 <= k < |all| ensures |all[k]| == 4 {
        if k > 0 { assert all[k] == ms[k - 1]; }
      }
    }
    forall k | 0 <= k < |all| ensures RecordsOf(all)[k] == ([ParallelOf(x)] + RecordsOf(ms))[k] {
      RecordsOfAt(all, k);
      if k > 0 {
        RecordsOfAt(ms, k - 1);
        assert all[k] == ms[k - 1];
      }
    }
  }

  /** `(AB) // (CD)` in context gives its record, after text without `(` and
      before the records of the text that follows. */
  lemma ParallelFound(p: seq<char>, a: char, b: char, c: char, d: char, q: seq<char>)
    requires '(' !in p
    requires IsAsciiUpper(a) && IsAsciiUpper(b) && IsAsciiUpper(c) && IsAsciiUpper(d)
    ensures ParallelsOf(p + ParallelText(a, b, c, d) + q) == [Parallel([a, b], [c, d], {[a], [b], [c], [d]})] + ParallelsOf(q)
  {
    ParallelItemsShape();
    var t := ParallelText(a, b, c, d) + q;
    ParallelTextMatches(a, b, c, d, q);
    assert ParallelItems[0] == Lit("(");
    FindAllSkips(p, t, ParallelItems);
    FindAllStep(t, ParallelItems, Match(12, [a, b, c, d]));
    assert t[12..] == q;
    assert p + ParallelText(a, b, c, d) + q == p + t;
    FindAllCaptures(q, ParallelItems);
    RecordsOfCons([a, b, c, d], FindAll(q, ParallelItems));
  }

  /** A `(` that starts no match adds no record, after text without `(`. */
  lemma {:induction false} ParallelMiss(p: seq<char>, t: seq<char>)
    requires '(' !in p && MatchItems(['('] + t, ParallelItems).None?
    ensures ParallelsOf(p + ['('] + t) == ParallelsOf(t)
  {
    ParallelItemsShape();
    assert ParallelItems[0] == Lit("(");
    var u := ['('] + t;
    FindAllSkips(p, u, ParallelItems);
    FindAllMiss(u, ParallelItems);
    assert u[1..] == t;
    assert p + ['('] + t == p + u;
  }

  /** The record `r` is built from the four groups of a match that starts
      somewhere in `s`. */
  predicate RecordFromMatch(s: seq<char>, r: Parallel) {
    exists i :: (0 <= i < |s| && MatchItems(s[i..], ParallelItems).Some?
      && |MatchItems(s[i..], ParallelItems).value.caps| == 4
      && r == ParallelOf(MatchItems(s[i..], ParallelItems).value.caps))
  }

  /** Every record is built from a match that starts somewhere in `s`. */
  predicate FromMatches(s: seq<char>, rs: seq<Parallel>) {
    forall k :: 0 <= k < |rs| ==> RecordFromMatch(s, rs[k])
  }

  /** The `k`-th record comes from a match. */
  lemma {:induction false} ParallelFromMatch(s: seq<char>, k: nat)
    requires k < |ParallelsOf(s)|
    ensures RecordFromMatch(s, ParallelsOf(s)[k])
  {
    ParallelItemsShape();
    FindAllCaptures(s, ParallelItems);
    var ms := FindAll(s, ParallelItems);
    assert Quads(ms) && ParallelsOf(s) == RecordsOf(ms);
    RecordsOfAt(ms, k);
    FindAllSound(s, ParallelItems, k);
    var i :| (0 <= i < |s| && MatchItems(s[i..], ParallelItems).Some?
      && MatchItems(s[i..], ParallelItems).value.caps == ms[k]);
    assert |ms[k]| == 4;
  }

  /** Soundness of the parallel extractor: no record without a match. */
  lemma {:induction false} ParallelsSound(s: seq<char>)
    ensures FromMatches(s, ParallelsOf(s))
  {
    forall k | 0 <= k < |ParallelsOf(s)|
      ensures RecordFromMatch(s, ParallelsOf(s)[k])
    {
      ParallelFromMatch(s, k);
    }
  }

  /** `extraire_parallelisme`: one record per match, appended in text order. */
  method ExtraireParallelisme(texte: string) returns (parallelismes: seq<Parallel>)
    ensures parallelismes == ParallelsOf(texte)
    ensures FromMatches(texte, parallelismes)
  {
    ParallelItemsShape();
    FindAllCaptures(texte, ParallelItems);
    var matches := FindAll(texte, ParallelItems);
    assert Quads(matches);
    parallelismes := [];
    for k := 0 to |matches|
      invariant parallelismes == RecordsOf(matches[..k])
    {
      assert matches[..k + 1][..k] == matches[..k];
      parallelismes := parallelismes + [ParallelOf(matches[k])];
    }
    assert matches[..|matches|] == matches;
    ParallelsSound(texte);
  }
}
