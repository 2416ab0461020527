/** `TextNormalizer.validate_geometry_points` and `ensure_point_consistency`:
    the isolated capital letters of a text are compared with the points a
    figure declares, ignoring capitals that are usually not point names. */
module GeometryPoints {
  import opened TextChars

  /** The result dictionary: the verdict and three sorted lists of letters. */
  datatype PointCheck = PointCheck(
    valid: bool,
    foundPoints: seq<char>,
    unexpectedPoints: seq<char>,
    missingPoints: seq<char>)

  /** Capitals that commonly appear in French text without naming a point. */
  const FalsePositives: set<char> := {'I', 'O', 'L', 'D', 'E', 'M', 'N', 'P', 'R', 'S', 'T', 'U', 'V'}

  /** `\b([A-Z])\b` matches at `i`: an ASCII capital with no word character on either side. */
  predicate IsolatedAt(s: seq<char>, i: int) {
    0 <= i < |s| && IsAsciiUpper(s[i])
    && (i == 0 || !IsWordChar(s[i - 1]))
    && (i + 1 == |s| || !IsWordChar(s[i + 1]))
  }

  /** `c` is an isolated capital somewhere in `s`. */
  predicate IsolatedLetter(s: seq<char>, c: char) {
    exists i :: 0 <= i < |s| && IsolatedAt(s, i) && s[i] == c
  }

  /** `re.findall(r'\b([A-Z])\b', s[i..])` in the context of the whole text:
      the isolated capitals from position `i` on, in text order. */
  function IsolatedFrom(s: seq<char>, i: nat): (r: seq<char>)
    requires i <= |s|
    ensures forall c :: c in r <==> exists j :: i <= j < |s| && IsolatedAt(s, j) && s[j] == c
    decreases |s| - i
  {
    if i == |s| then []
    else (if IsolatedAt(s, i) then [s[i]] else []) + IsolatedFrom(s, i + 1)
  }

  function ValidateGeometryPoints(text: string, expected: seq<char>): (r: PointCheck)
    ensures forall c :: c in r.foundPoints <==> IsolatedLetter(text, c)
    ensures forall c :: c in r.unexpectedPoints <==> IsolatedLetter(text, c) && c !in expected && c !in FalsePositives
    ensures forall c :: c in r.missingPoints <==> c in expected && !IsolatedLetter(text, c)
    ensures StrictlyIncreasing(r.foundPoints) && StrictlyIncreasing(r.unexpectedPoints) && StrictlyIncreasing(r.missingPoints)
    ensures r.valid <==> r.unexpectedPoints == []
  {
    var found := IsolatedFrom(text, 0);
    var unexpected := Filter(found, c => c !in expected);
    var unexpected := Filter(unexpected, c => c in expected || c !in FalsePositives);
    var missing := Filter(expected, c => c !in found);
    var unexpectedSorted := SortedUnique(unexpected);
    PointCheck(|unexpectedSorted| == 0, SortedUnique(found), unexpectedSorted, SortedUnique(missing))
  }

  /** The text passes exactly when every isolated capital is an expected point
      or one of the usual false positives. */
  lemma ValidIff(text: string, expected: seq<char>)
    ensures ValidateGeometryPoints(text, expected).valid <==>
      forall i :: IsolatedAt(text, i) ==> text[i] in expected || text[i] in FalsePositives
  {
    var r := ValidateGeometryPoints(text, expected);
    if !r.valid {
      var c := r.unexpectedPoints[0];
      assert c in r.unexpectedPoints;
      var i :| IsolatedAt(text, i) && text[i] == c;
    }
  }

  /** Declaring more points never turns a passing text into a failing one. */
  lemma ValidMonotone(text: string, expected: seq<char>, more: seq<char>)
    requires forall c :: c in expected ==> c in more
    ensures ValidateGeometryPoints(text, expected).valid ==> ValidateGeometryPoints(text, more).valid
  {
    ValidIff(text, expected);
    ValidIff(text, more);
  }

  /** Text with no isolated capital passes, whatever points are expected, and
      then every expected point is missing. */
  lemma NoCapitalsPass(text: string, expected: seq<char>)
    requires forall i :: 0 <= i < |text| ==> !IsAsciiUpper(text[i])
    ensures ValidateGeometryPoints(text, expected).valid
    ensures ValidateGeometryPoints(text, expected).foundPoints == []
    ensures forall c :: c in ValidateGeometryPoints(text, expected).missingPoints <==> c in expected
  {
    ValidIff(text, expected);
  }

  // ---------------------------------------------------------------------
  // ensure_point_consistency
  // ---------------------------------------------------------------------

  /** The result dictionary: both texts and the warnings. */
  datatype Consistency = Consistency(enonce: string, solution: string, warnings: seq<string>)

  /** Character `j` of the items of a Python list of one-letter strings:
      `'A', 'B', ...` repeats the five-character pattern quote, letter, quote,
      comma, blank. */
  function ItemChar(cs: seq<char>, j: nat): char
    requires j / 5 < |cs|
  {
    var k := j % 5;
    if k == 1 then cs[j / 5] else if k == 3 then ',' else if k == 4 then ' ' else '\''
  }

  /** `str(list)` of one-letter strings, e.g. `['A', 'B']`. */
  function ListRepr(cs: seq<char>): (r: string)
    ensures |r| == if cs == [] then 2 else 5 * |cs|
    ensures r[0] == '[' && r[|r| - 1] == ']'
    ensures forall j :: 0 < j < |r| - 1 ==> (j - 1) / 5 < |cs| && r[j] == ItemChar(cs, j - 1)
  {
    var items := ListItems(cs);
    var r := "[" + items + "]";
    assert forall j :: 0 < j < |r| - 1 ==> r[j] == items[j - 1];
    r
  }

  /** The items of `str(list)` without the brackets, separated by `", "`. */
  function ListItems(cs: seq<char>): (r: string)
    ensures |r| == if cs == [] then 0 else 5 * |cs| - 2
    ensures forall j :: 0 <= j < |r| ==> j / 5 < |cs| && r[j] == ItemChar(cs, j)
  {
    if cs == [] then ""
    else if |cs| == 1 then ['\'', cs[0], '\'']
    else
      var rest := ListItems(cs[1..]);
      var r := ['\'', cs[0], '\'', ',', ' '] + rest;
      assert forall j :: 5 <= j < |r| ==> r[j] == rest[j - 5];
      assert forall j :: 5 <= j < |r| ==> j / 5 < |cs| && r[j] == ItemChar(cs, j) by {
        forall j | 5 <= j < |r| ensures j / 5 < |cs| && rest[j - 5] == ItemChar(cs, j) {
          ItemCharShift(cs, j);
        }
      }
      r
  }

  /** Dropping the first letter moves every item five characters left. */
  lemma ItemCharShift(cs: seq<char>, j: nat)
    requires 5 <= j && (j - 5) / 5 < |cs| - 1
    ensures j / 5 < |cs| && ItemChar(cs[1..], j - 5) == ItemChar(cs, j)
  {
    assert (j - 5) / 5 == j / 5 - 1 && (j - 5) % 5 == j % 5;
  }

  const EnoncePrefix: string := "Points inattendus dans énoncé: "
  const SolutionPrefix: string := "Points inattendus dans solution: "

  /** The warning for a failing text. */
  function Warning(prefix: string, check: PointCheck): string {
    prefix + ListRepr(check.unexpectedPoints)
  }

  /** The texts come back as they were given; there is one warning per failing
      text, the statement's before the solution's, each naming the unexpected
      points of its text. */
  method EnsurePointConsistency(enonce: string, solution: string, specPoints: seq<char>)
    returns (r: Consistency)
    ensures r.enonce == enonce && r.solution == solution
    ensures var e := ValidateGeometryPoints(enonce, specPoints);
      var s := ValidateGeometryPoints(solution, specPoints);
      && |r.warnings| == (if e.valid then 0 else 1) + (if s.valid then 0 else 1)
      && (!e.valid ==> r.warnings[0] == Warning(EnoncePrefix, e))
      && (!s.valid ==> r.warnings[|r.warnings| - 1] == Warning(SolutionPrefix, s))
  {
    var warnings: seq<string> := [];
    var enonceValidation := ValidateGeometryPoints(enonce, specPoints);
    if !enonceValidation.valid {
      var w := Warning(EnoncePrefix, enonceValidation);
      warnings := warnings + [w];
    }
    assert |warnings| == if enonceValidation.valid then 0 else 1;
    var solutionValidation := ValidateGeometryPoints(solution, specPoints);
    if !solutionValidation.valid {
      var w := Warning(SolutionPrefix, solutionValidation);
      warnings := warnings + [w];
      assert warnings[|warnings| - 1] == w;
    }
    assert !enonceValidation.valid ==> warnings[0] == Warning(EnoncePrefix, enonceValidation);
    assert !solutionValidation.valid ==> warnings[|warnings| - 1] == Warning(SolutionPrefix, solutionValidation);
    r := Consistency(enonce, solution, warnings);
  }
}
