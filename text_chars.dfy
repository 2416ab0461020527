/** Character classes standing in for Python's `\d`, `\s`, `\b` and `re.IGNORECASE`,
    restricted to the Latin-1 range, plus small sequence helpers shared by the
    text-normalization and coherence modules. */
module TextChars {

  datatype Option<T> = None | Some(value: T)

  /** `\d`: a decimal digit. */
  predicate IsDigit(c: char) {
    '0' <= c <= '9'
  }

  /** `\s`: the characters `str.isspace` accepts in the Latin-1 range. */
  predicate IsSpace(c: char) {
    c == ' ' || c == '\t' || c == '\n' || c == '\r' || c == '\U{B}' || c == '\U{C}'
    || ('\U{1C}' <= c <= '\U{1F}') || c == '\U{85}' || c == '\U{A0}'
  }

  /** Every character of `w` is whitespace: what `\s*` may consume. */
  predicate AllSpaces(w: seq<char>) {
    forall i :: 0 <= i < |w| ==> IsSpace(w[i])
  }

  predicate IsAsciiUpper(c: char) {
    'A' <= c <= 'Z'
  }

  predicate IsAsciiLetter(c: char) {
    'a' <= c <= 'z' || IsAsciiUpper(c)
  }

  /** Latin-1 letters with diacritics (À … ÿ), leaving out × and ÷. */
  predicate IsLatin1Letter(c: char) {
    '\U{C0}' <= c <= '\U{FF}' && c != '×' && c != '÷'
  }

  /** Upper-case letters in the Latin-1 range, as `str.isupper` sees a one-character string. */
  predicate IsUpperChar(c: char) {
    IsAsciiUpper(c) || ('\U{C0}' <= c <= '\U{DE}' && c != '×')
  }

  /** `\w`: the characters `str.isalnum` accepts in the Latin-1 range, and the underscore.
      Superscript digits and vulgar fractions count, as they do for Python. */
  predicate IsWordChar(c: char) {
    IsAsciiLetter(c) || IsDigit(c) || c == '_' || IsLatin1Letter(c)
    || c == '\U{AA}' || c == '²' || c == '³' || c == '\U{B5}' || c == '\U{B9}' || c == '\U{BA}'
    || ('\U{BC}' <= c <= '\U{BE}')
  }

  /** Lower-case mapping used for case-insensitive matching. */
  function Lower(c: char): (r: char)
    ensures IsWordChar(r) <==> IsWordChar(c)
    ensures IsAsciiUpper(c) ==> r == (c as int + 32) as char
    ensures !IsUpperChar(c) ==> r == c
  {
    if IsUpperChar(c) then (c as int + 32) as char else c
  }

  /** Two characters equal up to case. */
  predicate CaseEq(c: char, d: char) {
    Lower(c) == Lower(d)
  }

  predicate HasPrefix(s: seq<char>, p: seq<char>) {
    |p| <= |s| && s[..|p|] == p
  }

  /** `p` occurs somewhere in `s` (as a contiguous piece). */
  predicate Occurs(s: seq<char>, p: seq<char>)
    decreases |s|
  {
    HasPrefix(s, p) || (s != [] && Occurs(s[1..], p))
  }

  /** A prefix test splits into the first character and the rest. */
  lemma PrefixSplit(s: seq<char>, p: seq<char>)
    requires s != [] && p != []
    ensures HasPrefix(s, p) <==> s[0] == p[0] && HasPrefix(s[1..], p[1..])
  {
    if |p| <= |s| {
      assert s[..|p|] == [s[0]] + s[1..][..|p| - 1];
      assert p == [p[0]] + p[1..];
    }
  }

  /** Concatenation regrouped, as the rewriting lemmas state it. */
  lemma Regroup(p: seq<char>, x: seq<char>, y: seq<char>, z: seq<char>, u: seq<char>)
    ensures p + x + y + z + u == p + (x + y + z + u)
    ensures p + x + y == p + (x + y)
    ensures p + x + y + z == p + (x + (y + z))
  {
  }

  /** The head of `s` followed by the rest of its first `n` characters. */
  lemma HeadThenRest(s: seq<char>, n: nat, t: seq<char>)
    requires 0 < n <= |s|
    ensures [s[0]] + (s[1..n] + t) == s[..n] + t
  {
    assert [s[0]] + s[1..n] == s[..n];
  }

  /** A character of a slice is a character of the whole sequence. */
  lemma SliceMember(s: seq<char>, b: nat, e: nat, c: char)
    requires b <= e <= |s| && c in s[b..e]
    ensures c in s
  {
    var i :| 0 <= i < e - b && s[b..e][i] == c;
    assert s[b + i] == c;
  }

  /** A character of `s[..d] + w + r`, where `r` was computed from the suffix
      `s[j..]` and holds nothing but its characters and those of `w`, is a
      character of `s` or of `w`. */
  lemma SpliceMember(s: seq<char>, d: nat, j: nat, w: seq<char>, r: seq<char>, c: char)
    requires d <= |s| && j <= |s| && c in s[..d] + w + r
    requires c in r ==> c in s[j..] || c in w
    ensures c in s || c in w
  {
    if c in s[..d] {
      SliceMember(s, 0, d, c);
    } else if c in r && c in s[j..] {
      SliceMember(s, j, |s|, c);
    }
  }

  /** A piece whose first character is absent from `s` does not occur in it. */
  lemma {:induction false} AbsentHeadNotOccurs(s: seq<char>, p: seq<char>)
    requires p != [] && p[0] !in s
    ensures !Occurs(s, p)
    decreases |s|
  {
    if s != [] {
      if |p| <= |s| {
        assert s[..|p|][0] == s[0];
      }
      AbsentHeadNotOccurs(s[1..], p);
    }
  }

  /** Length of the longest prefix of `s` made of digits. */
  function DigitRun(s: seq<char>): (n: nat)
    ensures n <= |s|
    ensures forall i :: 0 <= i < n ==> IsDigit(s[i])
    ensures n < |s| ==> !IsDigit(s[n])
  {
    if s != [] && IsDigit(s[0]) then 1 + DigitRun(s[1..]) else 0
  }

  /** Length of the longest prefix of `s` made of whitespace. */
  function SpaceRun(s: seq<char>): (n: nat)
    ensures n <= |s|
    ensures forall i :: 0 <= i < n ==> IsSpace(s[i])
    ensures n < |s| ==> !IsSpace(s[n])
  {
    if s != [] && IsSpace(s[0]) then 1 + SpaceRun(s[1..]) else 0
  }

  /** Length of the run of digits in `s` from position `i` on. */
  function DigitsFrom(s: seq<char>, i: nat): (n: nat)
    requires i <= |s|
    ensures i + n <= |s|
    ensures i + n < |s| ==> !IsDigit(s[i + n])
    decreases |s| - i
  {
    if i < |s| && IsDigit(s[i]) then 1 + DigitsFrom(s, i + 1) else 0
  }

  /** Length of the run of blanks in `s` from position `i` on. */
  function BlanksFrom(s: seq<char>, i: nat): (n: nat)
    requires i <= |s|
    ensures i + n <= |s|
    ensures i + n < |s| ==> !IsSpace(s[i + n])
    decreases |s| - i
  {
    if i < |s| && IsSpace(s[i]) then 1 + BlanksFrom(s, i + 1) else 0
  }

  lemma {:induction false} DigitsFromAll(s: seq<char>, i: nat)
    requires i <= |s|
    ensures forall k :: i <= k < i + DigitsFrom(s, i) ==> IsDigit(s[k])
    decreases |s| - i
  {
    if i < |s| && IsDigit(s[i]) {
      DigitsFromAll(s, i + 1);
    }
  }

  lemma {:induction false} BlanksFromAll(s: seq<char>, i: nat)
    requires i <= |s|
    ensures forall k :: i <= k < i + BlanksFrom(s, i) ==> IsSpace(s[k])
    decreases |s| - i
  {
    if i < |s| && IsSpace(s[i]) {
      BlanksFromAll(s, i + 1);
    }
  }

  /** A run of digits from `i` up to `j`, where a non-digit or the end follows. */
  lemma {:induction false} DigitsUpTo(s: seq<char>, i: nat, j: nat)
    requires i <= j <= |s|
    requires forall k :: i <= k < j ==> IsDigit(s[k])
    requires j == |s| || !IsDigit(s[j])
    ensures DigitsFrom(s, i) == j - i
    decreases j - i
  {
    if i < j {
      DigitsUpTo(s, i + 1, j);
    }
  }

  /** A run of blanks from `i` up to `j`, where a non-blank or the end follows. */
  lemma {:induction false} BlanksUpTo(s: seq<char>, i: nat, j: nat)
    requires i <= j <= |s|
    requires forall k :: i <= k < j ==> IsSpace(s[k])
    requires j == |s| || !IsSpace(s[j])
    ensures BlanksFrom(s, i) == j - i
    decreases j - i
  {
    if i < j {
      BlanksUpTo(s, i + 1, j);
    }
  }

  /** The run of digits of `s[i..]`, counted in place. */
  lemma {:induction false} DigitRunFrom(s: seq<char>, i: nat)
    requires i <= |s|
    ensures DigitRun(s[i..]) == DigitsFrom(s, i)
    decreases |s| - i
  {
    if i < |s| {
      assert s[i..][0] == s[i];
      if IsDigit(s[i]) {
        assert s[i..][1..] == s[i + 1..];
        DigitRunFrom(s, i + 1);
      }
    }
  }

  /** The run of blanks of `s[i..]`, counted in place. */
  lemma {:induction false} SpaceRunFrom(s: seq<char>, i: nat)
    requires i <= |s|
    ensures SpaceRun(s[i..]) == BlanksFrom(s, i)
    decreases |s| - i
  {
    if i < |s| {
      assert s[i..][0] == s[i];
      if IsSpace(s[i]) {
        assert s[i..][1..] == s[i + 1..];
        SpaceRunFrom(s, i + 1);
      }
    }
  }

  predicate StrictlyIncreasing(s: seq<char>) {
    forall i, j :: 0 <= i < j < |s| ==> s[i] < s[j]
  }

  /** The elements of `xs` for which `keep` holds, in their order. */
  function Filter(xs: seq<char>, keep: char -> bool): (r: seq<char>)
    ensures forall c :: c in r <==> c in xs && keep(c)
    ensures |r| <= |xs|
  {
    if xs == [] then []
    else (if keep(xs[0]) then [xs[0]] else []) + Filter(xs[1..], keep)
  }

  /** Insert `c` into a strictly increasing sequence, dropping it if already present. */
  function InsertSorted(c: char, r: seq<char>): (t: seq<char>)
    requires StrictlyIncreasing(r)
    ensures StrictlyIncreasing(t)
    ensures forall d :: d in t <==> d == c || d in r
  {
    if r == [] then [c]
    else if c < r[0] then [c] + r
    else if c == r[0] then r
    else
      var t := InsertSorted(c, r[1..]);
      assert forall d :: d in t ==> r[0] < d;
      [r[0]] + t
  }

  /** `sorted(set(xs))`: the distinct elements of `xs` in increasing order. */
  function SortedUnique(xs: seq<char>): (r: seq<char>)
    ensures StrictlyIncreasing(r)
    ensures forall c :: c in r <==> c in xs
  {
    if xs == [] then []
    else InsertSorted(xs[|xs| - 1], SortedUnique(xs[..|xs| - 1]))
  }
}
