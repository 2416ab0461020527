/** `TextNormalizer.normalize_math_symbols`: a fixed chain of six regular-expression
    rewrites, each modelled as a left-to-right scan that, like `re.sub`, either
    rewrites a match starting at the current position and resumes after it, or
    copies one character and moves on.

    A regular expression is modelled by "matches here" predicates, one per
    state of the pattern (after the left digits, in the spaces before the sign,
    and so on).  In every pattern here the character classes on either side of
    a repetition are disjoint, so backtracking never changes whether or how a
    match is found. */
module NormalizeSymbols {
  import opened TextChars

  // ---------------------------------------------------------------------
  // Rule 1: `\s*\*\s*` -> " × "
  // ---------------------------------------------------------------------

  /** An asterisk, possibly preceded by whitespace, starts here. */
  predicate AsteriskMatch(s: seq<char>) {
    SpaceRun(s) < |s| && s[SpaceRun(s)] == '*'
  }

  /** Length of the match: leading whitespace, the asterisk, trailing whitespace. */
  function AsteriskLen(s: seq<char>): (n: nat)
    requires AsteriskMatch(s)
    ensures 0 < n <= |s|
  {
    var k := SpaceRun(s) + 1;
    k + SpaceRun(s[k..])
  }

  function Asterisks(s: seq<char>): (r: seq<char>)
    ensures '*' !in r
    ensures forall c :: c in r ==> c in s || c == ' ' || c == '×'
    decreases |s|
  {
    if s == [] then []
    else if AsteriskMatch(s) then
      var rest := s[AsteriskLen(s)..];
      assert forall c :: c in rest ==> c in s;
      " × " + Asterisks(rest)
    else
      assert s[0] != '*';
      [s[0]] + Asterisks(s[1..])
  }

  /** Text without an asterisk goes through the rule unchanged. */
  lemma {:induction false} AsterisksKeepPlainText(s: seq<char>)
    requires '*' !in s
    ensures Asterisks(s) == s
  {
    if s != [] {
      AsterisksKeepPlainText(s[1..]);
    }
  }

  lemma {:induction false} AsterisksIdempotent(s: seq<char>)
    ensures Asterisks(Asterisks(s)) == Asterisks(s)
  {
    AsterisksKeepPlainText(Asterisks(s));
  }

  /** Text with no asterisk and not ending in whitespace is copied unchanged,
      whatever follows it: no match can start inside it. */
  lemma {:induction false} AsteriskFreePrefix(p: seq<char>, t: seq<char>)
    requires '*' !in p && (p == [] || !IsSpace(p[|p| - 1]))
    ensures Asterisks(p + t) == p + Asterisks(t)
  {
    if p != [] {
      var s := p + t;
      assert s[|p| - 1] == p[|p| - 1];
      assert SpaceRun(s) < |p|;
      assert p[SpaceRun(s)] in p;
      assert !AsteriskMatch(s);
      assert s[1..] == p[1..] + t;
      assert p[1..] == [] || p[1..][|p[1..]| - 1] == p[|p| - 1];
      assert Asterisks(s) == [s[0]] + Asterisks(s[1..]);
      AsteriskFreePrefix(p[1..], t);
      Regroup([p[0]], p[1..], Asterisks(t), [], []);
      assert [p[0]] + p[1..] == p;
    } else {
      assert p + t == t;
    }
  }

  /** An asterisk with the whitespace on both sides of it becomes " × "; the
      text before it is kept and the text after it is rewritten in turn. */
  lemma {:induction false} AsteriskBecomesTimes(p: seq<char>, w1: seq<char>, w2: seq<char>, q: seq<char>)
    requires '*' !in p && (p == [] || !IsSpace(p[|p| - 1]))
    requires forall i :: 0 <= i < |w1| ==> IsSpace(w1[i])
    requires forall i :: 0 <= i < |w2| ==> IsSpace(w2[i])
    requires q == [] || !IsSpace(q[0])
    ensures Asterisks(p + w1 + ['*'] + w2 + q) == p + " × " + Asterisks(q)
  {
    var m := w1 + ['*'] + w2 + q;
    BlanksRun(w1);
    BlanksRun(w2);
    AsteriskAtBlanks(w1, w2, q);
    AsteriskFreePrefix(p, m);
    Regroup(p, w1, ['*'], w2, q);
    Regroup(p, " × ", Asterisks(q), [], []);
  }

  /** An asterisk between two blank runs is one match, spanning both runs. */
  lemma {:induction false} AsteriskAtBlanks(w1: seq<char>, w2: seq<char>, q: seq<char>)
    requires SpaceRun(w1) == |w1| && SpaceRun(w2) == |w2|
    requires q == [] || !IsSpace(q[0])
    ensures Asterisks(w1 + ['*'] + w2 + q) == " × " + Asterisks(q)
  {
    var b := w2 + q;
    var m := w1 + (['*'] + b);
    Regroup(w1, ['*'], w2, q, []);
    BlankRun(w1, ['*'] + b);
    assert m[|w1|] == '*';
    assert m[|w1| + 1..] == b;
    BlankRun(w2, q);
    assert b[|w2|..] == q;
    AsteriskStep(m, q);
  }

  lemma {:induction false} AsteriskStep(m: seq<char>, q: seq<char>)
    requires AsteriskMatch(m) && m[AsteriskLen(m)..] == q
    ensures Asterisks(m) == " × " + Asterisks(q)
  {
  }

  /** Text made only of blanks is one whole run of them. */
  lemma {:induction false} BlanksRun(w: seq<char>)
    requires forall i :: 0 <= i < |w| ==> IsSpace(w[i])
    ensures SpaceRun(w) == |w|
  {
    if w != [] {
      assert IsSpace(w[0]);
      assert forall i :: 0 <= i < |w[1..]| ==> w[1..][i] == w[i + 1];
      BlanksRun(w[1..]);
    }
  }

  /** A run of blanks followed by a non-blank is exactly the leading run. */
  lemma {:induction false} BlankRun(w: seq<char>, t: seq<char>)
    requires SpaceRun(w) == |w|
    requires t == [] || !IsSpace(t[0])
    ensures SpaceRun(w + t) == |w|
  {
    assert t != [] ==> (w + t)[|w|] == t[0];
  }

  // ---------------------------------------------------------------------
  // Rule 2: `(\d+)\s*x\s*(\d+)` -> `\1 × \2`
  // ---------------------------------------------------------------------

  // No digit is a blank or an `x`, so `\d+` and `\s*` never give characters
  // back: the pattern matches at the start of `s` exactly when the longest
  // runs of digits, blanks, `x`, blanks and digits line up.

  /** Where a run of digits from `i` ends. */
  function LeftEnd(s: seq<char>, i: nat): (d: nat)
    requires i <= |s|
    ensures i <= d <= |s|
  {
    i + DigitsFrom(s, i)
  }

  /** Where the `x` has to be after a run of digits from `i`. */
  function SignFrom(s: seq<char>, i: nat): (x: nat)
    requires i <= |s|
    ensures LeftEnd(s, i) <= x <= |s|
  {
    LeftEnd(s, i) + BlanksFrom(s, LeftEnd(s, i))
  }

  /** Where the `x` of a match at the start of `s` has to be. */
  function TimesSign(s: seq<char>): (x: nat)
    ensures DigitsFrom(s, 0) <= x <= |s|
  {
    SignFrom(s, 0)
  }

  /** Where the right operand of a match at the start of `s` has to start. */
  function TimesRight(s: seq<char>): (b: nat)
    requires TimesSign(s) < |s|
    ensures TimesSign(s) < b <= |s|
  {
    var x := TimesSign(s);
    x + 1 + BlanksFrom(s, x + 1)
  }

  /** An `x` at `x`, then blanks, then a digit. */
  predicate SignAt(s: seq<char>, x: nat)
    requires x <= |s|
  {
    x < |s| && s[x] == 'x' && x + 1 + BlanksFrom(s, x + 1) < |s| && IsDigit(s[x + 1 + BlanksFrom(s, x + 1)])
  }

  /** `(\d+)\s*x\s*(\d+)` matches at the start of `s`. */
  predicate TimesMatch(s: seq<char>) {
    0 < DigitsFrom(s, 0) && SignAt(s, TimesSign(s))
  }

  /** Where the right operand of a match ends. */
  function TimesEnd(s: seq<char>): (e: nat)
    requires TimesMatch(s)
    ensures TimesRight(s) < e <= |s|
  {
    var b := TimesRight(s);
    b + DigitsFrom(s, b)
  }

  /** The rule as written: the right operand is consumed, so in `2x3x4` only the
      first product is rewritten in one pass. */
  function DigitTimes(s: seq<char>): seq<char>
    decreases |s|
  {
    if s == [] then []
    else if TimesMatch(s) then
      var d, b, e := DigitsFrom(s, 0), TimesRight(s), TimesEnd(s);
      s[..d] + " × " + s[b..e] + DigitTimes(s[e..])
    else
      [s[0]] + DigitTimes(s[1..])
  }

  /** The rule only brings in blanks and the `×` glyph. */
  lemma {:induction false} DigitTimesChars(s: seq<char>)
    ensures forall c :: c in DigitTimes(s) ==> c in s || c == ' ' || c == '×'
  {
    forall c | c in DigitTimes(s) ensures c in s || c == ' ' || c == '×' {
      DigitTimesChar(s, c);
    }
  }

  lemma {:induction false} DigitTimesChar(s: seq<char>, c: char)
    requires c in DigitTimes(s)
    ensures c in s || c == ' ' || c == '×'
    decreases |s|
  {
    if TimesMatch(s) {
      var d, b, e := DigitsFrom(s, 0), TimesRight(s), TimesEnd(s);
      assert DigitTimes(s) == s[..d] + " × " + s[b..e] + DigitTimes(s[e..]);
      if c in DigitTimes(s[e..]) {
        DigitTimesChar(s[e..], c);
      }
      ProductMember(s, d, b, e, DigitTimes(s[e..]), c);
    } else {
      assert DigitTimes(s) == [s[0]] + DigitTimes(s[1..]);
      if c in DigitTimes(s[1..]) {
        DigitTimesChar(s[1..], c);
      }
      SpliceMember(s, 1, 1, " × ", DigitTimes(s[1..]), c);
    }
  }

  /** A character of `s[..d] + " × " + s[b..e] + r`, where `r` holds nothing
      but characters of `s[e..]`, blanks and `×`, is one of those. */
  lemma {:induction false} ProductMember(s: seq<char>, d: nat, b: nat, e: nat, r: seq<char>, c: char)
    requires d <= b <= e <= |s| && c in s[..d] + " × " + s[b..e] + r
    requires c in r ==> c in s[e..] || c == ' ' || c == '×'
    ensures c in s || c == ' ' || c == '×'
  {
    if c in s[..d] {
      SliceMember(s, 0, d, c);
    } else if c in s[b..e] {
      SliceMember(s, b, e, c);
    } else if c in r && c in s[e..] {
      SliceMember(s, e, |s|, c);
    }
  }

  /** Text without the letter `x` goes through the rule unchanged. */
  lemma {:induction false} DigitTimesKeepsPlainText(s: seq<char>)
    requires 'x' !in s
    ensures DigitTimes(s) == s
  {
    if s != [] {
      assert !TimesMatch(s) by {
        if TimesSign(s) < |s| {
          assert s[TimesSign(s)] in s;
        }
      }
      DigitTimesKeepsPlainText(s[1..]);
    }
  }

  /** No match of the multiplication pattern starts anywhere in `s`. */
  predicate TimesFree(s: seq<char>)
    decreases |s|
  {
    s == [] || (!TimesMatch(s) && TimesFree(s[1..]))
  }

  /** No match starts anywhere in text without the letter `x`. */
  lemma {:induction false} PlainTextIsTimesFree(s: seq<char>)
    requires 'x' !in s
    ensures TimesFree(s)
  {
    if s != [] {
      assert !TimesMatch(s) by {
        if TimesSign(s) < |s| {
          assert s[TimesSign(s)] in s;
        }
      }
      assert forall c :: c in s[1..] ==> c in s;
      PlainTextIsTimesFree(s[1..]);
    }
  }

  lemma {:induction false} TimesFreeIsFixed(s: seq<char>)
    requires TimesFree(s)
    ensures DigitTimes(s) == s
  {
    if s != [] {
      TimesFreeIsFixed(s[1..]);
    }
  }

  /** A product of two single digits at the head of `s`. */
  predicate SingleDigitHead(s: seq<char>) {
    |s| >= 3 && IsDigit(s[0]) && s[1] == 'x' && IsDigit(s[2]) && (|s| == 3 || !IsDigit(s[3]))
  }

  lemma {:induction false} SingleDigitMatch(s: seq<char>)
    requires SingleDigitHead(s)
    ensures TimesMatch(s)
    ensures DigitsFrom(s, 0) == 1 && TimesRight(s) == 2 && TimesEnd(s) == 3
  {
    DigitsUpTo(s, 0, 1);
    BlanksUpTo(s, 1, 1);
    BlanksUpTo(s, 2, 2);
    DigitsUpTo(s, 2, 3);
  }

  /** A match unfolds into its left operand, ` × `, its right operand and the
      rewritten rest. */
  lemma {:induction false} DigitTimesAt(s: seq<char>, d: nat, b: nat, e: nat)
    requires TimesMatch(s) && DigitsFrom(s, 0) == d && TimesRight(s) == b && TimesEnd(s) == e
    ensures d <= b <= e <= |s|
    ensures DigitTimes(s) == s[..d] + " × " + s[b..e] + DigitTimes(s[e..])
  {
  }

  /** A match whose left operand, right operand and rest are known. */
  lemma {:induction false} DigitTimesOf(s: seq<char>, d: nat, b: nat, e: nat, left: seq<char>, right: seq<char>, rest: seq<char>)
    requires TimesMatch(s) && DigitsFrom(s, 0) == d && TimesRight(s) == b && TimesEnd(s) == e
    requires d <= b <= e <= |s| && s[..d] == left && s[b..e] == right && s[e..] == rest
    ensures DigitTimes(s) == left + " × " + right + DigitTimes(rest)
  {
    DigitTimesAt(s, d, b, e);
  }

  /** One digit, `x`, one digit, then no further digit: the product is rewritten
      and the scan resumes after the right operand. */
  lemma {:induction false} SingleDigitProduct(s: seq<char>)
    requires SingleDigitHead(s)
    ensures DigitTimes(s) == [s[0], ' ', '×', ' ', s[2]] + DigitTimes(s[3..])
  {
    SingleDigitMatch(s);
    DigitTimesAt(s, 1, 2, 3);
    assert s[..1] + " × " + s[2..3] == [s[0], ' ', '×', ' ', s[2]];
  }

  /** A prefix in which no match starts is copied unchanged. */
  lemma {:induction false} TimesFreePrefix(p: seq<char>, t: seq<char>)
    requires forall i :: 0 <= i < |p| ==> !TimesMatch(p[i..] + t)
    ensures DigitTimes(p + t) == p + DigitTimes(t)
  {
    if p != [] {
      assert p[0..] == p;
      assert (p + t)[1..] == p[1..] + t;
      assert DigitTimes(p + t) == [p[0]] + DigitTimes(p[1..] + t);
      forall i | 0 <= i < |p[1..]|
        ensures !TimesMatch(p[1..][i..] + t)
      {
        assert p[1..][i..] == p[i + 1..];
      }
      TimesFreePrefix(p[1..], t);
      Regroup([p[0]], p[1..], DigitTimes(t), [], []);
      assert [p[0]] + p[1..] == p;
    } else {
      assert p + t == t;
    }
  }

  // What a product becomes in context: `p + l + w1 + "x" + w2 + r + q`, with
  // digit runs `l` and `r` and blank runs `w1` and `w2`.

  /** A product laid out as digits, blanks, `x`, blanks, digits is a match,
      given where its runs end. */
  lemma {:induction false} MatchOfRuns(m: seq<char>, d: nat, x: nat, b: nat, e: nat)
    requires 0 < d <= x < b < e <= |m|
    requires DigitsFrom(m, 0) == d && BlanksFrom(m, d) == x - d && m[x] == 'x'
    requires BlanksFrom(m, x + 1) == b - x - 1 && DigitsFrom(m, b) == e - b
    ensures TimesMatch(m) && TimesRight(m) == b && TimesEnd(m) == e
  {
  }

  /** The laid-out product `m`, with its `x` at `x` and its right operand at `b`. */
  predicate ProductLayout(l: seq<char>, w1: seq<char>, w2: seq<char>, r: seq<char>, q: seq<char>, m: seq<char>, x: nat, b: nat) {
    m == l + (w1 + (['x'] + (w2 + (r + q)))) && x == |l| + |w1| && b == x + 1 + |w2|
  }

  /** The runs of the laid-out product, each read off its own piece. */
  lemma {:induction false} ProductRuns(l: seq<char>, w1: seq<char>, w2: seq<char>, r: seq<char>, q: seq<char>, m: seq<char>, x: nat, b: nat)
    requires ProductLayout(l, w1, w2, r, q, m, x, b)
    requires forall i :: 0 <= i < |l| ==> IsDigit(l[i])
    requires r != [] && forall i :: 0 <= i < |r| ==> IsDigit(r[i])
    requires forall i :: 0 <= i < |w1| ==> IsSpace(w1[i])
    requires forall i :: 0 <= i < |w2| ==> IsSpace(w2[i])
    requires q == [] || !IsDigit(q[0])
    ensures x < b < b + |r| <= |m| && m[x] == 'x'
    ensures DigitsFrom(m, 0) == |l| && BlanksFrom(m, |l|) == |w1|
    ensures BlanksFrom(m, x + 1) == |w2| && DigitsFrom(m, b) == |r|
  {
    ProductLeft(l, w1, w2, r, q, m, x, b);
    ProductBlanks(l, w1, w2, r, q, m, x, b);
    ProductRight(l, w1, w2, r, q, m, x, b);
  }

  lemma {:induction false} ProductLeft(l: seq<char>, w1: seq<char>, w2: seq<char>, r: seq<char>, q: seq<char>, m: seq<char>, x: nat, b: nat)
    requires ProductLayout(l, w1, w2, r, q, m, x, b)
    requires forall i :: 0 <= i < |l| ==> IsDigit(l[i])
    requires forall i :: 0 <= i < |w1| ==> IsSpace(w1[i])
    ensures x < |m| && m[x] == 'x' && DigitsFrom(m, 0) == |l|
  {
    assert m[x] == 'x';
    assert forall k :: 0 <= k < |l| ==> m[k] == l[k];
    assert !IsDigit(m[|l|]) by {
      if w1 == [] {
        assert m[|l|] == 'x';
      } else {
        assert m[|l|] == w1[0];
      }
    }
    DigitsUpTo(m, 0, |l|);
  }

  lemma {:induction false} ProductBlanks(l: seq<char>, w1: seq<char>, w2: seq<char>, r: seq<char>, q: seq<char>, m: seq<char>, x: nat, b: nat)
    requires ProductLayout(l, w1, w2, r, q, m, x, b)
    requires forall i :: 0 <= i < |w1| ==> IsSpace(w1[i])
    requires forall i :: 0 <= i < |w2| ==> IsSpace(w2[i])
    requires r != [] && IsDigit(r[0])
    ensures b < |m| && BlanksFrom(m, |l|) == |w1| && BlanksFrom(m, x + 1) == |w2|
  {
    assert forall k :: |l| <= k < x ==> m[k] == w1[k - |l|];
    assert m[x] == 'x';
    BlanksUpTo(m, |l|, x);
    assert forall k :: x + 1 <= k < b ==> m[k] == w2[k - x - 1];
    assert m[b] == r[0];
    BlanksUpTo(m, x + 1, b);
  }

  lemma {:induction false} ProductRight(l: seq<char>, w1: seq<char>, w2: seq<char>, r: seq<char>, q: seq<char>, m: seq<char>, x: nat, b: nat)
    requires ProductLayout(l, w1, w2, r, q, m, x, b)
    requires forall i :: 0 <= i < |r| ==> IsDigit(r[i])
    requires q == [] || !IsDigit(q[0])
    ensures b + |r| <= |m| && DigitsFrom(m, b) == |r|
  {
    assert forall k :: b <= k < b + |r| ==> m[k] == r[k - b];
    assert b + |r| < |m| ==> m[b + |r|] == q[0];
    DigitsUpTo(m, b, b + |r|);
  }

  /** The pieces of the laid-out product. */
  lemma {:induction false} ProductPieces(l: seq<char>, w1: seq<char>, w2: seq<char>, r: seq<char>, q: seq<char>, m: seq<char>, x: nat, b: nat)
    requires ProductLayout(l, w1, w2, r, q, m, x, b)
    ensures b + |r| <= |m| && m[..|l|] == l && m[b..b + |r|] == r && m[b + |r|..] == q
  {
  }

  /** A product given by its runs and pieces is rewritten to `l × r`. */
  lemma {:induction false} RewrittenFromRuns(m: seq<char>, l: seq<char>, r: seq<char>, q: seq<char>, x: nat, b: nat)
    requires 0 < |l| <= x < b < b + |r| <= |m| && m[x] == 'x'
    requires DigitsFrom(m, 0) == |l| && BlanksFrom(m, |l|) == x - |l|
    requires BlanksFrom(m, x + 1) == b - x - 1 && DigitsFrom(m, b) == |r|
    requires m[..|l|] == l && m[b..b + |r|] == r && m[b + |r|..] == q
    ensures DigitTimes(m) == l + " × " + r + DigitTimes(q)
  {
    MatchOfRuns(m, |l|, x, b, b + |r|);
    DigitTimesOf(m, |l|, b, b + |r|, l, r, q);
  }

  /** What the rule makes of a laid-out product. */
  lemma {:induction false} ProductRewritten(l: seq<char>, w1: seq<char>, w2: seq<char>, r: seq<char>, q: seq<char>)
    requires l != [] && forall i :: 0 <= i < |l| ==> IsDigit(l[i])
    requires r != [] && forall i :: 0 <= i < |r| ==> IsDigit(r[i])
    requires forall i :: 0 <= i < |w1| ==> IsSpace(w1[i])
    requires forall i :: 0 <= i < |w2| ==> IsSpace(w2[i])
    requires q == [] || !IsDigit(q[0])
    ensures DigitTimes(l + (w1 + (['x'] + (w2 + (r + q))))) == l + " × " + r + DigitTimes(q)
  {
    var m := l + (w1 + (['x'] + (w2 + (r + q))));
    var x := |l| + |w1|;
    var b := x + 1 + |w2|;
    ProductRuns(l, w1, w2, r, q, m, x, b);
    ProductPieces(l, w1, w2, r, q, m, x, b);
    RewrittenFromRuns(m, l, r, q, x, b);
  }

  /** A product with multi-digit operands becomes `l × r`: the text before is
      kept and the text after the right operand is rewritten in turn. */
  lemma {:induction false} ProductBecomesTimes(p: seq<char>, l: seq<char>, w1: seq<char>, w2: seq<char>, r: seq<char>, q: seq<char>)
    requires 'x' !in p && (p == [] || !IsDigit(p[|p| - 1]))
    requires l != [] && forall i :: 0 <= i < |l| ==> IsDigit(l[i])
    requires r != [] && forall i :: 0 <= i < |r| ==> IsDigit(r[i])
    requires forall i :: 0 <= i < |w1| ==> IsSpace(w1[i])
    requires forall i :: 0 <= i < |w2| ==> IsSpace(w2[i])
    requires q == [] || !IsDigit(q[0])
    ensures DigitTimes(p + l + w1 + "x" + w2 + r + q) == p + l + " × " + r + DigitTimes(q)
  {
    var m := l + (w1 + (['x'] + (w2 + (r + q))));
    ProductRewritten(l, w1, w2, r, q);
    assert m[0] == l[0];
    RewrittenAfter(p, m, l + " × " + r + DigitTimes(q));
    ProductRegroup(p, l, w1, w2, r, q);
    Regroup(p, l, " × ", r, DigitTimes(q));
  }

  /** What the rule makes of `m` follows a prefix in which no match starts. */
  lemma {:induction false} RewrittenAfter(p: seq<char>, m: seq<char>, out: seq<char>)
    requires 'x' !in p && (p == [] || !IsDigit(p[|p| - 1]))
    requires m != [] && IsDigit(m[0]) && DigitTimes(m) == out
    ensures DigitTimes(p + m) == p + out
  {
    ProductFreePrefix(p, m);
  }

  lemma {:induction false} ProductRegroup(p: seq<char>, l: seq<char>, w1: seq<char>, w2: seq<char>, r: seq<char>, q: seq<char>)
    ensures p + l + w1 + "x" + w2 + r + q == p + (l + (w1 + (['x'] + (w2 + (r + q)))))
  {
  }

  /** No match starts in `u + m` when `u` is nonempty, `x`-free and ends in a
      non-digit, and `m` starts with a digit: the left operand stops before the
      end of `u`, and what follows it up to `m` holds no `x`. */
  lemma {:induction false} NoMatchBefore(u: seq<char>, m: seq<char>)
    requires u != [] && 'x' !in u && !IsDigit(u[|u| - 1])
    requires m != [] && IsDigit(m[0])
    ensures !TimesMatch(u + m)
  {
    var s := u + m;
    var d := DigitsFrom(s, 0);
    var x := TimesSign(s);
    DigitsFromAll(s, 0);
    BlanksFromAll(s, d);
    assert s[|u| - 1] == u[|u| - 1];
    assert d < |u|;
    if x < |u| {
      assert s[x] == u[x];
      assert u[x] in u;
    } else {
      assert s[|u|] == m[0];
      assert x == |u|;
    }
  }

  /** No product starts inside `x`-free text that does not end in a digit and
      is followed by a digit. */
  lemma {:induction false} ProductFreePrefix(p: seq<char>, m: seq<char>)
    requires 'x' !in p && (p == [] || !IsDigit(p[|p| - 1]))
    requires m != [] && IsDigit(m[0])
    ensures DigitTimes(p + m) == p + DigitTimes(m)
  {
    forall i | 0 <= i < |p|
      ensures !TimesMatch(p[i..] + m)
    {
      var u := p[i..];
      assert u[|u| - 1] == p[|p| - 1];
      assert forall c :: c in u ==> c in p;
      NoMatchBefore(u, m);
    }
    TimesFreePrefix(p, m);
  }

  /** A digit followed by a blank and the `×` glyph does not start a match. */
  lemma {:induction false} GlyphAfterDigit(s: seq<char>)
    requires |s| >= 3 && IsDigit(s[0]) && s[1] == ' ' && s[2] == '×'
    ensures !TimesMatch(s)
  {
    DigitsUpTo(s, 0, 1);
    BlanksUpTo(s, 1, 2);
  }

  /** A single digit is left alone. */
  lemma {:induction false} LoneDigit(c: char)
    requires IsDigit(c)
    ensures DigitTimes([c]) == [c] && DigitTimesChained([c]) == [c]
  {
    assert [c][1..] == [];
    assert !TimesMatch([c]);
  }

  lemma {:induction false} FirstPassOnChain(a: char, b: char, c: char)
    requires IsDigit(a) && IsDigit(b) && IsDigit(c)
    ensures DigitTimes([a, 'x', b, 'x', c]) == [a, ' ', '×', ' ', b, 'x', c]
  {
    var s := [a, 'x', b, 'x', c];
    SingleDigitProduct(s);
    assert s[3..] == ['x', c];
    assert !TimesMatch(s[3..]);
    assert s[3..][1..] == [c];
    LoneDigit(c);
  }

  lemma {:induction false} SecondPassOnChain(a: char, b: char, c: char)
    requires IsDigit(a) && IsDigit(b) && IsDigit(c)
    ensures DigitTimes([a, ' ', '×', ' ', b, 'x', c]) == [a, ' ', '×', ' ', b, ' ', '×', ' ', c]
  {
    var once := [a, ' ', '×', ' ', b, 'x', c];
    var p, t := once[..4], once[4..];
    assert p + t == once;
    forall i | 0 <= i < |p|
      ensures !TimesMatch(p[i..] + t)
    {
      assert p[i..] + t == once[i..];
      if i == 0 {
        GlyphAfterDigit(once);
      } else {
        assert !IsDigit(once[i]);
      }
    }
    TimesFreePrefix(p, t);
    assert t == [b, 'x', c];
    SingleDigitProduct(t);
    assert t[3..] == [];
  }

  /** The as-written rule is not idempotent on a chained product: the first pass
      leaves the second `x` in place, and a second pass rewrites it. */
  lemma {:induction false} DigitTimesNotIdempotent()
    ensures DigitTimes("2x3x4") == "2 × 3x4"
    ensures DigitTimes(DigitTimes("2x3x4")) == "2 × 3 × 4"
  {
    FirstPassOnChain('2', '3', '4');
    SecondPassOnChain('2', '3', '4');
  }

  /** The rule as evidently intended: the right operand is only looked ahead at
      (`(\d+)\s*x\s*(?=\d)` -> `\1 × `), so a chain `2x3x4` is rewritten in full. */
  function DigitTimesChained(s: seq<char>): seq<char>
    decreases |s|
  {
    if s == [] then []
    else if TimesMatch(s) then
      var d, b := DigitsFrom(s, 0), TimesRight(s);
      s[..d] + " × " + DigitTimesChained(s[b..])
    else
      [s[0]] + DigitTimesChained(s[1..])
  }

  lemma {:induction false} ChainedChars(s: seq<char>)
    ensures forall c :: c in DigitTimesChained(s) ==> c in s || c == ' ' || c == '×'
    decreases |s|
  {
    if s != [] {
      if TimesMatch(s) {
        var d, b := DigitsFrom(s, 0), TimesRight(s);
        ChainedChars(s[b..]);
        assert DigitTimesChained(s) == s[..d] + " × " + DigitTimesChained(s[b..]);
        assert forall c :: c in s[..d] || c in s[b..] ==> c in s;
      } else {
        ChainedChars(s[1..]);
        assert DigitTimesChained(s) == [s[0]] + DigitTimesChained(s[1..]);
      }
    }
  }

  lemma {:induction false} ChainedHead(s: seq<char>)
    ensures DigitTimesChained(s) == [] <==> s == []
    ensures s != [] ==> DigitTimesChained(s)[0] == s[0]
  {
    if s != [] && TimesMatch(s) {
      var d, b := DigitsFrom(s, 0), TimesRight(s);
      assert DigitTimesChained(s) == s[..d] + " × " + DigitTimesChained(s[b..]);
    }
  }

  // The chained rule is reasoned about phase by phase: in the left operand,
  // in the blanks before the `x`, and in the blanks after it.

  /** In the left operand, after its first digit. */
  predicate TimesAfterLeft(s: seq<char>)
    decreases |s|
  {
    s != [] && if IsDigit(s[0]) then TimesAfterLeft(s[1..]) else TimesBeforeSign(s)
  }

  /** In the blanks before the `x`. */
  predicate TimesBeforeSign(s: seq<char>)
    decreases |s|
  {
    s != [] && if IsSpace(s[0]) then TimesBeforeSign(s[1..]) else s[0] == 'x' && TimesAfterSign(s[1..])
  }

  /** After the `x`, in the blanks before the right operand. */
  predicate TimesAfterSign(s: seq<char>)
    decreases |s|
  {
    s != [] && if IsSpace(s[0]) then TimesAfterSign(s[1..]) else IsDigit(s[0])
  }

  lemma {:induction false} AfterSignAt(s: seq<char>, i: nat)
    requires i <= |s|
    ensures TimesAfterSign(s[i..]) <==> i + BlanksFrom(s, i) < |s| && IsDigit(s[i + BlanksFrom(s, i)])
    decreases |s| - i
  {
    if i < |s| && IsSpace(s[i]) {
      assert s[i..][1..] == s[i + 1..];
      AfterSignAt(s, i + 1);
    }
  }

  lemma {:induction false} BeforeSignAt(s: seq<char>, i: nat)
    requires i <= |s|
    ensures TimesBeforeSign(s[i..]) <==> SignAt(s, i + BlanksFrom(s, i))
    decreases |s| - i
  {
    if i < |s| {
      assert s[i..][1..] == s[i + 1..];
      if IsSpace(s[i]) {
        assert i + BlanksFrom(s, i) == i + 1 + BlanksFrom(s, i + 1);
        BeforeSignAt(s, i + 1);
      } else {
        AfterSignAt(s, i + 1);
      }
    }
  }

  lemma {:induction false} AfterLeftAt(s: seq<char>, i: nat)
    requires i <= |s|
    ensures TimesAfterLeft(s[i..]) <==> SignAt(s, SignFrom(s, i))
    decreases |s| - i
  {
    if i < |s| {
      if IsDigit(s[i]) {
        assert s[i..][1..] == s[i + 1..];
        assert SignFrom(s, i) == SignFrom(s, i + 1);
        AfterLeftAt(s, i + 1);
      } else {
        assert SignFrom(s, i) == i + BlanksFrom(s, i);
        BeforeSignAt(s, i);
      }
    } else {
      assert SignFrom(s, i) == i;
    }
  }

  /** The match, phase by phase. */
  lemma {:induction false} MatchInPhases(s: seq<char>)
    ensures TimesMatch(s) <==> s != [] && IsDigit(s[0]) && TimesAfterLeft(s[1..])
  {
    if s != [] && IsDigit(s[0]) {
      AfterLeftAt(s, 1);
    }
  }

  lemma {:induction false} ChainedAfterSignBack(s: seq<char>)
    requires TimesAfterSign(DigitTimesChained(s))
    ensures TimesAfterSign(s)
    decreases |s|
  {
    ChainedHead(s);
    if !IsDigit(s[0]) {
      assert DigitTimesChained(s) == [s[0]] + DigitTimesChained(s[1..]);
      if IsSpace(s[0]) {
        ChainedAfterSignBack(s[1..]);
      }
    }
  }

  lemma {:induction false} ChainedBeforeSignBack(s: seq<char>)
    requires TimesBeforeSign(DigitTimesChained(s))
    ensures TimesBeforeSign(s)
    decreases |s|
  {
    ChainedHead(s);
    if IsDigit(s[0]) {
      assert false;
    } else {
      assert DigitTimesChained(s) == [s[0]] + DigitTimesChained(s[1..]);
      if IsSpace(s[0]) {
        ChainedBeforeSignBack(s[1..]);
      } else {
        ChainedAfterSignBack(s[1..]);
      }
    }
  }

  /** A number followed by " × " cannot continue into a match. */
  lemma {:induction false} DigitsThenSign(digits: seq<char>, y: seq<char>)
    requires forall i :: 0 <= i < |digits| ==> IsDigit(digits[i])
    ensures !TimesAfterLeft(digits + " × " + y)
    ensures TimesFree(y) ==> TimesFree(digits + " × " + y)
    decreases |digits|
  {
    var t := digits + " × " + y;
    if digits == [] {
      assert t == [' ', '×', ' '] + y;
      assert t[1..] == ['×', ' '] + y;
      assert !IsSpace('×') && !IsDigit('×');
      assert !TimesBeforeSign(t[1..]);
      assert IsSpace(t[0]) && !IsDigit(t[0]);
      assert !TimesBeforeSign(t);
      assert t[1..][1..] == [' '] + y;
      assert t[1..][1..][1..] == y;
    } else {
      assert t[1..] == digits[1..] + " × " + y;
      DigitsThenSign(digits[1..], y);
      MatchInPhases(t);
    }
  }

  lemma {:induction false} ChainedAfterLeftBack(s: seq<char>)
    requires TimesAfterLeft(DigitTimesChained(s))
    ensures TimesAfterLeft(s)
    decreases |s|
  {
    ChainedHead(s);
    var out := DigitTimesChained(s);
    if IsDigit(s[0]) {
      if TimesMatch(s) {
        var d, b := DigitsFrom(s, 0), TimesRight(s);
        DigitsFromAll(s, 0);
        DigitsThenSign(s[..d], DigitTimesChained(s[b..]));
        assert false;
      } else {
        assert out == [s[0]] + DigitTimesChained(s[1..]);
        ChainedAfterLeftBack(s[1..]);
      }
    } else {
      ChainedBeforeSignBack(s);
    }
  }

  /** After the intended rewrite no digit-x-digit product is left anywhere. */
  lemma {:induction false} ChainedLeavesNoMatch(s: seq<char>)
    ensures TimesFree(DigitTimesChained(s))
    decreases |s|
  {
    if s == [] {
    } else if TimesMatch(s) {
      var d, b := DigitsFrom(s, 0), TimesRight(s);
      ChainedLeavesNoMatch(s[b..]);
      DigitsFromAll(s, 0);
      DigitsThenSign(s[..d], DigitTimesChained(s[b..]));
    } else {
      ChainedLeavesNoMatch(s[1..]);
      var out := DigitTimesChained(s);
      assert out == [s[0]] + DigitTimesChained(s[1..]);
      if TimesMatch(out) {
        MatchInPhases(out);
        assert out[1..] == DigitTimesChained(s[1..]);
        ChainedAfterLeftBack(s[1..]);
        MatchInPhases(s);
        assert false;
      }
    }
  }

  lemma {:induction false} TimesFreeIsChainedFixed(s: seq<char>)
    requires TimesFree(s)
    ensures DigitTimesChained(s) == s
  {
    if s != [] {
      TimesFreeIsChainedFixed(s[1..]);
    }
  }

  /** The intended rule is idempotent, and the as-written rule finds nothing left in its output. */
  lemma {:induction false} ChainedIdempotent(s: seq<char>)
    ensures DigitTimesChained(DigitTimesChained(s)) == DigitTimesChained(s)
    ensures DigitTimes(DigitTimesChained(s)) == DigitTimesChained(s)
  {
    ChainedLeavesNoMatch(s);
    TimesFreeIsChainedFixed(DigitTimesChained(s));
    TimesFreeIsFixed(DigitTimesChained(s));
  }

  lemma {:induction false} SingleDigitProductChained(s: seq<char>)
    requires SingleDigitHead(s)
    ensures DigitTimesChained(s) == [s[0], ' ', '×', ' '] + DigitTimesChained(s[2..])
  {
    SingleDigitMatch(s);
    assert DigitTimesChained(s) == s[..1] + " × " + DigitTimesChained(s[2..]);
    assert s[..1] + " × " == [s[0], ' ', '×', ' '];
  }

  /** The corrected rule rewrites a whole chain of products in one pass. */
  lemma {:induction false} ChainedRewritesWholeChain(a: char, b: char, c: char)
    requires IsDigit(a) && IsDigit(b) && IsDigit(c)
    ensures DigitTimesChained([a, 'x', b, 'x', c]) == [a, ' ', '×', ' ', b, ' ', '×', ' ', c]
  {
    var s := [a, 'x', b, 'x', c];
    SingleDigitProductChained(s);
    assert s[2..] == [b, 'x', c];
    SingleDigitProductChained(s[2..]);
    assert s[2..][2..] == [c];
    LoneDigit(c);
  }

  // ---------------------------------------------------------------------
  // Rules 3 and 4: `\^2(?!\d)` -> "²" and `\^3(?!\d)` -> "³"
  // ---------------------------------------------------------------------

  /** `\^e(?!\d)` matches at the start of `s`. */
  predicate PowerMatch(s: seq<char>, e: char) {
    HasPrefix(s, ['^', e]) && (|s| == 2 || !IsDigit(s[2]))
  }

  function Power(s: seq<char>, e: char, glyph: char): (r: seq<char>)
    ensures |r| <= |s|
    decreases |s|
  {
    if s == [] then []
    else if PowerMatch(s, e) then [glyph] + Power(s[2..], e, glyph)
    else [s[0]] + Power(s[1..], e, glyph)
  }

  lemma {:induction false} PowerChars(s: seq<char>, e: char, glyph: char)
    ensures forall c :: c in Power(s, e, glyph) ==> c in s || c == glyph
    decreases |s|
  {
    if s != [] {
      if PowerMatch(s, e) {
        PowerChars(s[2..], e, glyph);
        assert forall c :: c in s[2..] ==> c in s;
      } else {
        PowerChars(s[1..], e, glyph);
      }
    }
  }

  /** Text without `^` is copied unchanged, whatever follows it. */
  lemma {:induction false} PowerFreePrefix(p: seq<char>, t: seq<char>, e: char, glyph: char)
    requires '^' !in p
    ensures Power(p + t, e, glyph) == p + Power(t, e, glyph)
  {
    if p != [] {
      assert p[0] in p;
      assert !PowerMatch(p + t, e);
      assert (p + t)[1..] == p[1..] + t;
      assert Power(p + t, e, glyph) == [p[0]] + Power(p[1..] + t, e, glyph);
      PowerFreePrefix(p[1..], t, e, glyph);
      Regroup([p[0]], p[1..], Power(t, e, glyph), [], []);
      assert [p[0]] + p[1..] == p;
    } else {
      assert p + t == t;
    }
  }

  /** `^e` not followed by a digit becomes the one glyph: the text before it is
      kept and the text after it is rewritten in turn. */
  lemma {:induction false} PowerBecomesGlyph(p: seq<char>, e: char, glyph: char, q: seq<char>)
    requires '^' !in p
    requires q == [] || !IsDigit(q[0])
    ensures Power(p + ['^', e] + q, e, glyph) == p + [glyph] + Power(q, e, glyph)
  {
    var m := ['^', e] + q;
    assert m[..2] == ['^', e];
    assert q != [] ==> m[2] == q[0];
    assert m[2..] == q;
    assert Power(m, e, glyph) == [glyph] + Power(q, e, glyph);
    PowerFreePrefix(p, m, e, glyph);
    Regroup(p, ['^', e], q, [], []);
    Regroup(p, [glyph], Power(q, e, glyph), [], []);
  }

  function Squares(s: seq<char>): seq<char> {
    Power(s, '2', '²')
  }

  function Cubes(s: seq<char>): seq<char> {
    Power(s, '3', '³')
  }

  /** `^2` not followed by a digit becomes `²`, in any context free of `^`. */
  lemma {:induction false} SquareBecomesGlyph(p: seq<char>, q: seq<char>)
    requires '^' !in p && (q == [] || !IsDigit(q[0]))
    ensures Squares(p + "^2" + q) == p + "²" + Squares(q)
  {
    PowerBecomesGlyph(p, '2', '²', q);
  }

  /** `^3` not followed by a digit becomes `³`, in any context free of `^`. */
  lemma {:induction false} CubeBecomesGlyph(p: seq<char>, q: seq<char>)
    requires '^' !in p && (q == [] || !IsDigit(q[0]))
    ensures Cubes(p + "^3" + q) == p + "³" + Cubes(q)
  {
    PowerBecomesGlyph(p, '3', '³', q);
  }

  predicate PowerFree(s: seq<char>, e: char)
    decreases |s|
  {
    s == [] || (!PowerMatch(s, e) && PowerFree(s[1..], e))
  }

  lemma {:induction false} PowerFreeIsFixed(s: seq<char>, e: char, glyph: char)
    requires PowerFree(s, e)
    ensures Power(s, e, glyph) == s
  {
    if s != [] {
      PowerFreeIsFixed(s[1..], e, glyph);
    }
  }

  /** The first character of the output is the first character of the input or the glyph. */
  lemma {:induction false} PowerHead(s: seq<char>, e: char, glyph: char)
    requires s != []
    ensures Power(s, e, glyph) != []
    ensures Power(s, e, glyph)[0] == (if PowerMatch(s, e) then glyph else s[0])
  {
  }

  /** After the rewrite, every remaining `^e` is followed by a digit. */
  lemma {:induction false} PowerLeavesNoMatch(s: seq<char>, e: char, glyph: char)
    requires IsDigit(e) && !IsDigit(glyph) && glyph != '^'
    ensures PowerFree(Power(s, e, glyph), e)
    decreases |s|
  {
    if s == [] {
    } else if PowerMatch(s, e) {
      PowerLeavesNoMatch(s[2..], e, glyph);
    } else {
      PowerLeavesNoMatch(s[1..], e, glyph);
      var out := Power(s, e, glyph);
      var tail := Power(s[1..], e, glyph);
      assert out == [s[0]] + tail;
      if s[0] == '^' && |tail| >= 1 && tail[0] == e {
        PowerHead(s[1..], e, glyph);
        assert s[1] == e;
        assert |s| > 2 && IsDigit(s[2]);
        assert tail == [s[1]] + Power(s[2..], e, glyph);
        PowerHead(s[2..], e, glyph);
        assert !PowerMatch(s[2..], e);
        assert IsDigit(out[2]);
      }
    }
  }

  lemma {:induction false} PowerIdempotent(s: seq<char>, e: char, glyph: char)
    requires IsDigit(e) && !IsDigit(glyph) && glyph != '^'
    ensures Power(Power(s, e, glyph), e, glyph) == Power(s, e, glyph)
  {
    PowerLeavesNoMatch(s, e, glyph);
    PowerFreeIsFixed(Power(s, e, glyph), e, glyph);
  }

  /** Text without a caret goes through the rule unchanged. */
  lemma {:induction false} PowerKeepsPlainText(s: seq<char>, e: char, glyph: char)
    requires '^' !in s
    ensures Power(s, e, glyph) == s
  {
    if s != [] {
      PowerKeepsPlainText(s[1..], e, glyph);
    }
  }

  /** A caret exponent followed by another digit is left as it is, so `^23` survives. */
  lemma {:induction false} LongerExponentSurvives(s: seq<char>, e: char, glyph: char)
    requires HasPrefix(s, ['^', e]) && |s| > 2 && IsDigit(s[2]) && e != '^'
    ensures HasPrefix(Power(s, e, glyph), s[..3])
  {
    assert s[0] == '^' && s[1] == e by { assert s[..2][0] == s[0] && s[..2][1] == s[1]; }
    assert !PowerMatch(s, e);
    assert Power(s, e, glyph) == [s[0]] + Power(s[1..], e, glyph);
    assert !PowerMatch(s[1..], e);
    assert Power(s[1..], e, glyph) == [s[1]] + Power(s[2..], e, glyph);
    assert !PowerMatch(s[2..], e);
    assert Power(s[2..], e, glyph) == [s[2]] + Power(s[3..], e, glyph);
    assert Power(s, e, glyph) == s[..3] + Power(s[3..], e, glyph);
  }

  // ---------------------------------------------------------------------
  // Rule 5: `≈|~=|environ` -> "≈"
  // The first alternative rewrites ≈ to itself, which is the same as a copy.
  // ---------------------------------------------------------------------

  predicate ApproxMatch(s: seq<char>) {
    HasPrefix(s, "~=") || HasPrefix(s, "environ")
  }

  /** Text without `~` and `e` is copied unchanged, whatever follows it. */
  lemma {:induction false} ApproxFreePrefix(p: seq<char>, t: seq<char>)
    requires '~' !in p && 'e' !in p
    ensures Approximately(p + t) == p + Approximately(t)
  {
    if p != [] {
      assert p[0] in p;
      var s := p + t;
      assert s[0] == p[0];
      assert !HasPrefix(s, "~=") && !HasPrefix(s, "environ");
      assert s[1..] == p[1..] + t;
      assert Approximately(s) == [p[0]] + Approximately(p[1..] + t);
      ApproxFreePrefix(p[1..], t);
      Regroup([p[0]], p[1..], Approximately(t), [], []);
      assert [p[0]] + p[1..] == p;
    } else {
      assert p + t == t;
    }
  }

  /** `~=` and `environ` become the one glyph `≈`: the text before is kept and
      the text after is rewritten in turn. */
  lemma {:induction false} ApproxBecomesGlyph(p: seq<char>, w: seq<char>, q: seq<char>)
    requires '~' !in p && 'e' !in p
    requires w == "~=" || w == "environ"
    ensures Approximately(p + w + q) == p + "≈" + Approximately(q)
  {
    var m := w + q;
    assert m[..|w|] == w;
    assert m[|w|..] == q;
    assert m[0] == w[0];
    assert Approximately(m) == "≈" + Approximately(q);
    ApproxFreePrefix(p, m);
    Regroup(p, w, q, [], []);
    Regroup(p, "≈", Approximately(q), [], []);
  }

  function Approximately(s: seq<char>): (r: seq<char>)
    ensures |r| <= |s|
    decreases |s|
  {
    if s == [] then []
    else if HasPrefix(s, "~=") then "≈" + Approximately(s[2..])
    else if HasPrefix(s, "environ") then "≈" + Approximately(s[7..])
    else [s[0]] + Approximately(s[1..])
  }

  lemma {:induction false} ApproxChars(s: seq<char>)
    ensures forall c :: c in Approximately(s) ==> c in s || c == '≈'
    decreases |s|
  {
    if s != [] {
      if HasPrefix(s, "~=") {
        ApproxChars(s[2..]);
        assert forall c :: c in s[2..] ==> c in s;
      } else if HasPrefix(s, "environ") {
        ApproxChars(s[7..]);
        assert forall c :: c in s[7..] ==> c in s;
      } else {
        ApproxChars(s[1..]);
      }
    }
  }

  predicate ApproxFree(s: seq<char>)
    decreases |s|
  {
    s == [] || (!ApproxMatch(s) && ApproxFree(s[1..]))
  }

  lemma {:induction false} ApproxFreeIsFixed(s: seq<char>)
    requires ApproxFree(s)
    ensures Approximately(s) == s
  {
    if s != [] {
      ApproxFreeIsFixed(s[1..]);
    }
  }

  /** A prefix of the output that contains no ≈ was copied from the input. */
  lemma {:induction false} ApproxPrefixBack(s: seq<char>, p: seq<char>)
    requires HasPrefix(Approximately(s), p) && '≈' !in p
    ensures HasPrefix(s, p)
    decreases |s|
  {
    if p != [] {
      assert Approximately(s)[0] == p[0];
      assert s != [];
      assert !ApproxMatch(s);
      var tail := Approximately(s[1..]);
      assert Approximately(s) == [s[0]] + tail;
      assert tail[..|p| - 1] == p[1..];
      ApproxPrefixBack(s[1..], p[1..]);
    }
  }

  /** A free text stays free behind the glyph. */
  lemma {:induction false} ApproxGlyphFree(t: seq<char>)
    requires ApproxFree(t)
    ensures ApproxFree("≈" + t)
  {
    var u := "≈" + t;
    assert u[0] == '≈' && u[1..] == t;
  }

  lemma {:induction false} ApproxLeavesNoMatch(s: seq<char>)
    ensures ApproxFree(Approximately(s))
    decreases |s|
  {
    if s == [] {
    } else if HasPrefix(s, "~=") {
      ApproxLeavesNoMatch(s[2..]);
      ApproxGlyphFree(Approximately(s[2..]));
    } else if HasPrefix(s, "environ") {
      ApproxLeavesNoMatch(s[7..]);
      ApproxGlyphFree(Approximately(s[7..]));
    } else {
      ApproxLeavesNoMatch(s[1..]);
      ApproxCopyFree(s);
    }
  }

  /** Copying a character that starts no match keeps the output free. */
  lemma {:induction false} ApproxCopyFree(s: seq<char>)
    requires s != [] && !ApproxMatch(s) && ApproxFree(Approximately(s[1..]))
    ensures ApproxFree(Approximately(s))
  {
    var out, tail := Approximately(s), Approximately(s[1..]);
    assert out[0] == s[0] && out[1..] == tail;
    ApproxCopyKeeps(s, out, "~=");
    ApproxCopyKeeps(s, out, "environ");
  }

  /** The copy of a character that does not start `p` does not start `p` either. */
  lemma {:induction false} ApproxCopyKeeps(s: seq<char>, out: seq<char>, p: seq<char>)
    requires s != [] && out != [] && p != [] && '≈' !in p[1..]
    requires out[0] == s[0] && out[1..] == Approximately(s[1..])
    requires !HasPrefix(s, p)
    ensures !HasPrefix(out, p)
  {
    PrefixSplit(s, p);
    PrefixSplit(out, p);
    if HasPrefix(out[1..], p[1..]) {
      ApproxPrefixBack(s[1..], p[1..]);
    }
  }

  lemma {:induction false} ApproxIdempotent(s: seq<char>)
    ensures Approximately(Approximately(s)) == Approximately(s)
  {
    ApproxLeavesNoMatch(s);
    ApproxFreeIsFixed(Approximately(s));
  }

  lemma {:induction false} ApproxKeepsPlainText(s: seq<char>)
    requires !Occurs(s, "~=") && !Occurs(s, "environ")
    ensures Approximately(s) == s
  {
    if s != [] {
      ApproxKeepsPlainText(s[1..]);
    }
  }

  // ---------------------------------------------------------------------
  // Rule 6: `(\d+)\s*deg\b` -> `\1°`
  // ---------------------------------------------------------------------

  /** `deg` followed by a word boundary. */
  predicate DegWord(s: seq<char>) {
    HasPrefix(s, "deg") && (|s| == 3 || !IsWordChar(s[3]))
  }

  /** After one or more digits. */
  predicate DegAfterDigits(s: seq<char>)
    decreases |s|
  {
    s != [] && if IsDigit(s[0]) then DegAfterDigits(s[1..]) else DegAfterSpaces(s)
  }

  /** In the whitespace between the number and `deg`. */
  predicate DegAfterSpaces(s: seq<char>)
    decreases |s|
  {
    s != [] && if IsSpace(s[0]) then DegAfterSpaces(s[1..]) else DegWord(s)
  }

  predicate DegMatch(s: seq<char>) {
    s != [] && IsDigit(s[0]) && DegAfterDigits(s[1..])
  }

  lemma {:induction false} DegAfterSpacesShape(s: seq<char>)
    requires DegAfterSpaces(s)
    ensures DegWord(s[SpaceRun(s)..])
  {
    if IsSpace(s[0]) {
      DegAfterSpacesShape(s[1..]);
      assert s[1..][SpaceRun(s[1..])..] == s[SpaceRun(s)..];
    }
  }

  lemma {:induction false} DegAfterDigitsShape(s: seq<char>)
    requires DegAfterDigits(s)
    ensures DegAfterSpaces(s[DigitRun(s)..])
  {
    if IsDigit(s[0]) {
      DegAfterDigitsShape(s[1..]);
      assert s[1..][DigitRun(s[1..])..] == s[DigitRun(s)..];
    }
  }

  /** Where `deg` starts in a match; the number is `s[..DigitRun(s)]`. */
  function DegWordAt(s: seq<char>): (k: nat)
    requires DegMatch(s)
    ensures 0 < DigitRun(s) <= k && k + 3 <= |s| && DegWord(s[k..])
  {
    DegMatchShape(s);
    DigitRun(s) + SpaceRun(s[DigitRun(s)..])
  }

  lemma {:induction false} DegMatchShape(s: seq<char>)
    requires DegMatch(s)
    ensures 0 < DigitRun(s)
    ensures var d := DigitRun(s); var t := s[d..][SpaceRun(s[d..])..];
      DegWord(t) && |t| >= 3 && t == s[d + SpaceRun(s[d..])..]
  {
    DegAfterDigitsShape(s[1..]);
    assert s[1..][DigitRun(s[1..])..] == s[DigitRun(s)..];
    var d := DigitRun(s);
    DegAfterSpacesShape(s[d..]);
  }

  function Degrees(s: seq<char>): (r: seq<char>)
    ensures |r| <= |s|
    decreases |s|
  {
    if s == [] then []
    else if DegMatch(s) then
      var d, k := DigitRun(s), DegWordAt(s);
      s[..d] + "°" + Degrees(s[k + 3..])
    else
      [s[0]] + Degrees(s[1..])
  }

  /** One rewrite step at a match. */
  lemma {:induction false} DegreesAtMatch(s: seq<char>)
    requires DegMatch(s)
    ensures Degrees(s) == s[..DigitRun(s)] + "°" + Degrees(s[DegWordAt(s) + 3..])
  {
  }

  /** One copy step away from a match. */
  lemma {:induction false} DegreesCopy(s: seq<char>)
    requires s != [] && !DegMatch(s)
    ensures Degrees(s) == [s[0]] + Degrees(s[1..])
  {
  }

  /** The rule writes no character of its own other than `°`. */
  lemma {:induction false} DegreesChars(s: seq<char>)
    ensures forall c :: c in Degrees(s) ==> c in s || c == '°'
  {
    forall c | c in Degrees(s) ensures c in s || c == '°' {
      DegreesChar(s, c);
    }
  }

  lemma {:induction false} DegreesChar(s: seq<char>, c: char)
    requires c in Degrees(s)
    ensures c in s || c == '°'
    decreases |s|
  {
    if DegMatch(s) {
      var d, k := DigitRun(s), DegWordAt(s);
      var tail := s[k + 3..];
      DegreesAtMatch(s);
      if c in Degrees(tail) {
        DegreesChar(tail, c);
      }
      SpliceMember(s, d, k + 3, "°", Degrees(tail), c);
    } else {
      DegreesCopy(s);
      if c in Degrees(s[1..]) {
        DegreesChar(s[1..], c);
      }
      SpliceMember(s, 1, 1, "°", Degrees(s[1..]), c);
    }
  }

  predicate DegFree(s: seq<char>)
    decreases |s|
  {
    s == [] || (!DegMatch(s) && DegFree(s[1..]))
  }

  lemma {:induction false} DegFreeIsFixed(s: seq<char>)
    requires DegFree(s)
    ensures Degrees(s) == s
  {
    if s != [] {
      DegFreeIsFixed(s[1..]);
    }
  }

  /** The rewrite keeps the first character (a rewritten number starts with its own first digit). */
  lemma {:induction false} DegreesHead(s: seq<char>)
    ensures Degrees(s) == [] <==> s == []
    ensures s != [] ==> Degrees(s)[0] == s[0]
  {
    if s != [] {
      if DegMatch(s) {
        var d, k := DigitRun(s), DegWordAt(s);
        DegreesAtMatch(s);
        assert Degrees(s)[0] == s[..d][0] == s[0];
      } else {
        DegreesCopy(s);
      }
    }
  }

  lemma {:induction false} DegWordBack(s: seq<char>)
    requires DegWord(Degrees(s))
    ensures DegWord(s)
  {
    var out := Degrees(s);
    assert out[..3] == "deg";
    assert out[0] == 'd' && out[1] == 'e' && out[2] == 'g' by {
      assert out[0] == out[..3][0] && out[1] == out[..3][1] && out[2] == out[..3][2];
    }
    DegreesLettersBack(s, 3);
    assert s[..3] == [s[0], s[1], s[2]];
    DegreesHead(s[3..]);
  }

  /** Before the first digit of its output the rule has copied its input. */
  lemma {:induction false} DegreesLettersBack(s: seq<char>, n: nat)
    requires n <= |Degrees(s)|
    requires forall i :: 0 <= i < n ==> !IsDigit(Degrees(s)[i])
    ensures n <= |s| && Degrees(s[n..]) == Degrees(s)[n..]
    ensures forall i :: 0 <= i < n ==> s[i] == Degrees(s)[i]
  {
    if n > 0 {
      var out := Degrees(s);
      DegreesHead(s);
      DegreesCopy(s);
      assert out[1..] == Degrees(s[1..]);
      DegreesLettersBack(s[1..], n - 1);
      assert s[1..][n - 1..] == s[n..];
    }
  }

  lemma {:induction false} DegAfterSpacesBack(s: seq<char>)
    requires DegAfterSpaces(Degrees(s))
    ensures DegAfterSpaces(s)
    decreases |s|
  {
    DegreesHead(s);
    var out := Degrees(s);
    if IsDigit(s[0]) {
      assert false;
    } else {
      assert out == [s[0]] + Degrees(s[1..]);
      if IsSpace(s[0]) {
        DegAfterSpacesBack(s[1..]);
      } else {
        DegWordBack(s);
      }
    }
  }

  /** A number followed by ° cannot continue into a match. */
  lemma {:induction false} DigitsThenDegreeSign(digits: seq<char>, y: seq<char>)
    requires forall i :: 0 <= i < |digits| ==> IsDigit(digits[i])
    ensures !DegAfterDigits(digits + "°" + y)
    ensures DegFree(y) ==> DegFree(digits + "°" + y)
    decreases |digits|
  {
    var t := digits + "°" + y;
    if digits == [] {
      assert t == ['°'] + y;
      assert t[1..] == y;
    } else {
      assert t[1..] == digits[1..] + "°" + y;
      DigitsThenDegreeSign(digits[1..], y);
    }
  }

  lemma {:induction false} DegAfterDigitsBack(s: seq<char>)
    requires DegAfterDigits(Degrees(s))
    ensures DegAfterDigits(s)
    decreases |s|
  {
    DegreesHead(s);
    var out := Degrees(s);
    if IsDigit(s[0]) {
      if DegMatch(s) {
        var d, k := DigitRun(s), DegWordAt(s);
        DigitsThenDegreeSign(s[..d], Degrees(s[k + 3..]));
        assert false;
      } else {
        assert out == [s[0]] + Degrees(s[1..]);
        DegAfterDigitsBack(s[1..]);
      }
    } else {
      assert DegAfterSpaces(out);
      DegAfterSpacesBack(s);
    }
  }

  lemma {:induction false} DegreesLeaveNoMatch(s: seq<char>)
    ensures DegFree(Degrees(s))
    decreases |s|
  {
    if s == [] {
    } else if DegMatch(s) {
      var d, k := DigitRun(s), DegWordAt(s);
      DegreesLeaveNoMatch(s[k + 3..]);
      DigitsThenDegreeSign(s[..d], Degrees(s[k + 3..]));
    } else {
      DegreesLeaveNoMatch(s[1..]);
      var out := Degrees(s);
      assert out == [s[0]] + Degrees(s[1..]);
      if DegMatch(out) {
        assert out[1..] == Degrees(s[1..]);
        DegAfterDigitsBack(s[1..]);
        assert false;
      }
    }
  }

  lemma {:induction false} DegreesIdempotent(s: seq<char>)
    ensures Degrees(Degrees(s)) == Degrees(s)
  {
    DegreesLeaveNoMatch(s);
    DegFreeIsFixed(Degrees(s));
  }

  lemma {:induction false} DegNeedsWord(s: seq<char>)
    ensures DegAfterDigits(s) ==> Occurs(s, "deg")
    ensures DegAfterSpaces(s) ==> Occurs(s, "deg")
    decreases |s|
  {
    if s != [] {
      DegNeedsWord(s[1..]);
    }
  }

  lemma {:induction false} DegreesKeepPlainText(s: seq<char>)
    requires !Occurs(s, "deg")
    ensures Degrees(s) == s
  {
    if s != [] {
      DegNeedsWord(s[1..]);
      DegreesKeepPlainText(s[1..]);
    }
  }

  // What a degree measure becomes in context: `p + l + w + "deg" + q`, with
  // a digit run `l` and a blank run `w`.

  /** `deg` before the end of the text or a non-word character ends a match. */
  lemma DegWordThere(q: seq<char>)
    requires q == [] || !IsWordChar(q[0])
    ensures DegWord("deg" + q)
  {
    assert ("deg" + q)[..3] == "deg";
  }

  /** Blanks before `deg` are the whitespace of a match, and all of it. */
  lemma {:induction false} SpacesThenWord(w: seq<char>, r: seq<char>)
    requires AllSpaces(w) && DegWord(r)
    ensures DegAfterSpaces(w + r) && SpaceRun(w + r) == |w|
  {
    if w != [] {
      assert (w + r)[1..] == w[1..] + r;
      SpacesThenWord(w[1..], r);
    } else {
      assert w + r == r;
      assert r[..3][0] == r[0];
    }
  }

  /** Digits before the whitespace of a match are its number, and all of it. */
  lemma {:induction false} DigitsThenSpaces(l: seq<char>, r: seq<char>)
    requires forall i :: 0 <= i < |l| ==> IsDigit(l[i])
    requires DegAfterSpaces(r) && !IsDigit(r[0])
    ensures DegAfterDigits(l + r) && DigitRun(l + r) == |l|
  {
    if l != [] {
      assert (l + r)[1..] == l[1..] + r;
      DigitsThenSpaces(l[1..], r);
    } else {
      assert l + r == r;
    }
  }

  /** `l w deg q` is a match whose number is `l` and whose `deg` follows `w`. */
  lemma {:induction false} DegLayout(l: seq<char>, w: seq<char>, q: seq<char>, m: seq<char>)
    requires l != [] && forall i :: 0 <= i < |l| ==> IsDigit(l[i])
    requires AllSpaces(w) && (q == [] || !IsWordChar(q[0]))
    requires m == l + (w + ("deg" + q))
    ensures DegMatch(m) && DigitRun(m) == |l| && DegWordAt(m) == |l| + |w|
  {
    var r := w + ("deg" + q);
    DegWordThere(q);
    SpacesThenWord(w, "deg" + q);
    RestNotDigit(w, q);
    DigitsThenSpaces(l, r);
    DigitsThenSpaces(l[1..], r);
    DegTails(l, r, m);
  }

  /** Blanks then `deg` start with no digit. */
  lemma {:induction false} RestNotDigit(w: seq<char>, q: seq<char>)
    requires AllSpaces(w)
    ensures !IsDigit((w + ("deg" + q))[0])
  {
    var r := w + ("deg" + q);
    if w == [] {
      assert r[0] == 'd';
    } else {
      assert r[0] == w[0];
    }
  }

  /** A prefix of a text starting before a digit, when the prefix is not
      `deg`, does not start `deg`. */
  lemma {:induction false} DegPrefixSplit(p: seq<char>, m: seq<char>)
    requires m != [] && IsDigit(m[0])
    ensures HasPrefix(p + m, "deg") ==> HasPrefix(p, "deg")
  {
    if 3 <= |p| {
      assert (p + m)[..3] == p[..3];
    } else if 3 <= |p + m| {
      assert (p + m)[..3][|p|] == m[0];
    }
  }

  /** Text without `deg`, before a digit, holds no whitespace-then-`deg` tail. */
  lemma {:induction false} NoDegAfterSpaces(p: seq<char>, m: seq<char>)
    requires !Occurs(p, "deg") && m != [] && IsDigit(m[0])
    ensures !DegAfterSpaces(p + m)
    decreases |p|
  {
    DegPrefixSplit(p, m);
    if p != [] {
      assert (p + m)[1..] == p[1..] + m;
      NoDegAfterSpaces(p[1..], m);
    } else {
      assert p + m == m;
    }
  }

  /** Text without `deg` and not ending in a digit, before a digit, holds no
      match tail. */
  lemma {:induction false} NoDegAfterDigits(p: seq<char>, m: seq<char>)
    requires p != [] && !Occurs(p, "deg") && !IsDigit(p[|p| - 1])
    requires m != [] && IsDigit(m[0])
    ensures !DegAfterDigits(p + m)
    decreases |p|
  {
    if IsDigit(p[0]) {
      assert (p + m)[1..] == p[1..] + m;
      assert p[1..][|p[1..]| - 1] == p[|p| - 1];
      NoDegAfterDigits(p[1..], m);
    } else {
      NoDegAfterSpaces(p, m);
    }
  }

  /** Such text is copied by the degree rule, whatever follows from the digit on. */
  lemma {:induction false} DegFreeBefore(p: seq<char>, m: seq<char>)
    requires !Occurs(p, "deg") && (p == [] || !IsDigit(p[|p| - 1]))
    requires m != [] && IsDigit(m[0])
    ensures Degrees(p + m) == p + Degrees(m)
    decreases |p|
  {
    if p != [] {
      var s := p + m;
      assert s[1..] == p[1..] + m;
      if IsDigit(p[0]) {
        assert p[1..][|p[1..]| - 1] == p[|p| - 1];
        NoDegAfterDigits(p[1..], m);
      }
      DegreesCopy(s);
      assert p[1..] != [] ==> p[1..][|p[1..]| - 1] == p[|p| - 1];
      DegFreeBefore(p[1..], m);
      HeadThenRest(p, |p|, Degrees(m));
      assert p[1..|p|] == p[1..] && p[..|p|] == p;
    } else {
      assert p + m == m;
    }
  }

  /** What the rule makes of a laid-out degree measure. */
  lemma {:induction false} DegRewritten(l: seq<char>, w: seq<char>, q: seq<char>)
    requires l != [] && forall i :: 0 <= i < |l| ==> IsDigit(l[i])
    requires AllSpaces(w) && (q == [] || !IsWordChar(q[0]))
    ensures Degrees(l + (w + ("deg" + q))) == l + "°" + Degrees(q)
  {
    var m := l + (w + ("deg" + q));
    DegLayout(l, w, q, m);
    DegPieces(l, w, q, m);
    DegreesAtMatch(m);
    assert Degrees(m) == m[..|l|] + "°" + Degrees(m[|l| + |w| + 3..]);
  }

  /** The digits and the rest of a laid-out `<digits><blanks>deg<rest>`. */
  lemma {:induction false} DegPieces(l: seq<char>, w: seq<char>, q: seq<char>, m: seq<char>)
    requires m == l + (w + ("deg" + q))
    ensures m[..|l|] == l && m[|l| + |w| + 3..] == q
  {
  }

  /** The tails of a laid-out `<digits><blanks>deg<rest>`. */
  lemma {:induction false} DegTails(l: seq<char>, r: seq<char>, m: seq<char>)
    requires l != [] && m == l + r
    ensures m[|l|..] == r && m[1..] == l[1..] + r
  {
  }

  lemma DegRegroup(p: seq<char>, l: seq<char>, w: seq<char>, q: seq<char>, out: seq<char>)
    ensures p + l + w + "deg" + q == p + (l + (w + ("deg" + q)))
    ensures p + l + "°" + out == p + (l + "°" + out)
  {
  }

  /** A number, blanks and `deg` at a word boundary become the number and
      `°`: the text before is kept and the text after is rewritten in turn. */
  lemma {:induction false} DegreeBecomesSign(p: seq<char>, l: seq<char>, w: seq<char>, q: seq<char>)
    requires !Occurs(p, "deg") && (p == [] || !IsDigit(p[|p| - 1]))
    requires l != [] && forall i :: 0 <= i < |l| ==> IsDigit(l[i])
    requires AllSpaces(w)
    requires q == [] || !IsWordChar(q[0])
    ensures Degrees(p + l + w + "deg" + q) == p + l + "°" + Degrees(q)
  {
    var m := l + (w + ("deg" + q));
    DegRewritten(l, w, q);
    assert m[0] == l[0];
    DegFreeBefore(p, m);
    DegRegroup(p, l, w, q, Degrees(q));
  }

  // ---------------------------------------------------------------------
  // The whole chain
  // ---------------------------------------------------------------------

  function NormalizeMathSymbols(text: string): string {
    var t := Asterisks(text);
    var t := DigitTimes(t);
    var t := Squares(t);
    var t := Cubes(t);
    var t := Approximately(t);
    Degrees(t)
  }

  /** The same chain with the multiplication rule as evidently intended. */
  function NormalizeMathSymbolsChained(text: string): string {
    var t := Asterisks(text);
    var t := DigitTimesChained(t);
    var t := Squares(t);
    var t := Cubes(t);
    var t := Approximately(t);
    Degrees(t)
  }

  /** No asterisk survives normalization. */
  lemma {:induction false} NormalizeRemovesAsterisks(text: string)
    ensures '*' !in NormalizeMathSymbols(text)
    ensures '*' !in NormalizeMathSymbolsChained(text)
  {
    var t := Asterisks(text);
    DigitTimesChars(t);
    ChainedChars(t);
    var t1, u1 := DigitTimes(t), DigitTimesChained(t);
    PowerChars(t1, '2', '²');
    PowerChars(u1, '2', '²');
    var t2, u2 := Squares(t1), Squares(u1);
    PowerChars(t2, '3', '³');
    PowerChars(u2, '3', '³');
    var t3, u3 := Cubes(t2), Cubes(u2);
    ApproxChars(t3);
    ApproxChars(u3);
    DegreesChars(Approximately(t3));
    DegreesChars(Approximately(u3));
  }

  /** A blank or one of the glyphs normalization writes. */
  predicate NormalizerChar(c: char) {
    c == ' ' || c == '×' || c == '²' || c == '³' || c == '≈' || c == '°'
  }

  /** Normalization brings in no character but blanks and its five glyphs. */
  lemma {:induction false} NormalizeChars(text: string)
    ensures forall c :: c in NormalizeMathSymbols(text) ==> c in text || NormalizerChar(c)
    ensures forall c :: c in NormalizeMathSymbolsChained(text) ==> c in text || NormalizerChar(c)
  {
    var t := Asterisks(text);
    DigitTimesChars(t);
    ChainedChars(t);
    var t1, u1 := DigitTimes(t), DigitTimesChained(t);
    PowerChars(t1, '2', '²');
    PowerChars(u1, '2', '²');
    var t2, u2 := Squares(t1), Squares(u1);
    PowerChars(t2, '3', '³');
    PowerChars(u2, '3', '³');
    var t3, u3 := Cubes(t2), Cubes(u2);
    ApproxChars(t3);
    ApproxChars(u3);
    DegreesChars(Approximately(t3));
    DegreesChars(Approximately(u3));
  }

  /** Text with none of `*`, `x`, `^`, `~=`, `environ`, `deg` comes back
      unchanged, from the chain as written and as intended. */
  lemma {:induction false} NormalizeKeepsPlainText(text: string)
    requires '*' !in text && 'x' !in text && '^' !in text
    requires !Occurs(text, "~=") && !Occurs(text, "environ") && !Occurs(text, "deg")
    ensures NormalizeMathSymbols(text) == text
    ensures NormalizeMathSymbolsChained(text) == text
  {
    AsterisksKeepPlainText(text);
    DigitTimesKeepsPlainText(text);
    PlainTextIsTimesFree(text);
    TimesFreeIsChainedFixed(text);
    PowerKeepsPlainText(text, '2', '²');
    PowerKeepsPlainText(text, '3', '³');
    ApproxKeepsPlainText(text);
    DegreesKeepPlainText(text);
  }

  /** Text made only of digits, blanks, `x` and `×`: what the multiplication
      rules produce from a product of digits. */
  predicate ProductText(s: seq<char>) {
    forall c :: c in s ==> IsDigit(c) || c == ' ' || c == 'x' || c == '×'
  }

  /** Every rule after the multiplication rule leaves such text alone. */
  lemma {:induction false} LaterRulesKeepProducts(s: seq<char>)
    requires ProductText(s)
    ensures Degrees(Approximately(Cubes(Squares(s)))) == s
  {
    PowerKeepsPlainText(s, '2', '²');
    PowerKeepsPlainText(s, '3', '³');
    AbsentHeadNotOccurs(s, "~=");
    AbsentHeadNotOccurs(s, "environ");
    AbsentHeadNotOccurs(s, "deg");
    ApproxKeepsPlainText(s);
    DegreesKeepPlainText(s);
  }

  /** When the multiplication rule yields product text, that is the result of
      the whole chain (as written and as intended). */
  lemma {:induction false} NormalizeProducts(s: seq<char>, out: seq<char>)
    requires '*' !in s && ProductText(out)
    ensures DigitTimes(s) == out ==> NormalizeMathSymbols(s) == out
    ensures DigitTimesChained(s) == out ==> NormalizeMathSymbolsChained(s) == out
  {
    AsterisksKeepPlainText(s);
    LaterRulesKeepProducts(out);
  }

  /** Normalization as written is not idempotent: on a chain of three one-digit
      factors the first pass rewrites only the first product and a second pass
      rewrites the other. The corrected chain rewrites both at once. */
  lemma {:induction false} NormalizeNotIdempotent(a: char, b: char, c: char)
    requires IsDigit(a) && IsDigit(b) && IsDigit(c)
    ensures NormalizeMathSymbols([a, 'x', b, 'x', c]) == [a, ' ', '×', ' ', b, 'x', c]
    ensures NormalizeMathSymbols([a, ' ', '×', ' ', b, 'x', c]) == [a, ' ', '×', ' ', b, ' ', '×', ' ', c]
    ensures NormalizeMathSymbolsChained([a, 'x', b, 'x', c]) == [a, ' ', '×', ' ', b, ' ', '×', ' ', c]
  {
    var chain := [a, 'x', b, 'x', c];
    var once := [a, ' ', '×', ' ', b, 'x', c];
    var twice := [a, ' ', '×', ' ', b, ' ', '×', ' ', c];
    FirstPassOnChain(a, b, c);
    NormalizeProducts(chain, once);
    SecondPassOnChain(a, b, c);
    NormalizeProducts(once, twice);
    ChainedRewritesWholeChain(a, b, c);
    NormalizeProducts(chain, twice);
  }
}
