/** The checks and the bookkeeping of the massive generator test: every draw of
    a generator is classified as a success (possibly with a geometry warning) or
    an error, and a result accumulator counts them. */
module MassiveGenerators {
  import opened TextChars
  import Constants

  /** A parameter or solution value: a number (integer or decimal) or a string. */
  datatype Value = Num(x: real) | Str(s: string)

  datatype Figure = Figure(points: seq<string>)

  /** The fields of a generated exercise spec that the test reads. */
  datatype Spec = Spec(
    typeExercice: string,
    parametres: map<string, Value>,
    solutionCalculee: map<string, Value>,
    resultatFinal: string,
    figureGeometrique: Option<Figure>)

  // ---------------------------------------------------------------------
  // verify_geometry_points
  // ---------------------------------------------------------------------

  /** `len(p) == 1 and p.isupper()`: one upper-case letter. */
  predicate IsPointLabel(p: string) {
    |p| == 1 && IsUpperChar(p[0])
  }

  /** `set(points)`. */
  function ElemSet(points: seq<string>): set<string> {
    if points == [] then {} else ElemSet(points[..|points| - 1]) + {points[|points| - 1]}
  }

  /** The set holds exactly the labels of the list. */
  lemma {:induction false} ElemSetMembers(points: seq<string>)
    ensures forall p :: p in ElemSet(points) <==> p in points
  {
    if points != [] {
      var init := points[..|points| - 1];
      ElemSetMembers(init);
      assert points == init + [points[|points| - 1]];
    }
  }

  /** A sequence is repetition-free exactly when its prefix is and its last
      element is new. */
  lemma DistinctSnoc(points: seq<string>)
    requires points != []
    ensures Constants.Distinct(points) <==>
      Constants.Distinct(points[..|points| - 1]) && points[|points| - 1] !in points[..|points| - 1]
  {
    var init, last := points[..|points| - 1], points[|points| - 1];
    if Constants.Distinct(init) && last !in init {
      forall i, j | 0 <= i < j < |points| ensures points[i] != points[j] {
        assert points[i] == init[i];
        if j < |points| - 1 {
          assert points[j] == init[j];
        }
      }
    } else if last in init {
      var k :| 0 <= k < |init| && init[k] == last;
      assert points[k] == points[|points| - 1];
    } else {
      var i, j :| 0 <= i < j < |init| && init[i] == init[j];
      assert points[i] == points[j];
    }
  }

  /** `len(points) == len(set(points))` exactly when no label is repeated. */
  lemma {:induction false} ElemSetSize(points: seq<string>)
    ensures |ElemSet(points)| <= |points|
    ensures |ElemSet(points)| == |points| <==> Constants.Distinct(points)
  {
    if points != [] {
      var init, last := points[..|points| - 1], points[|points| - 1];
      ElemSetSize(init);
      ElemSetMembers(init);
      DistinctSnoc(points);
      if last !in init {
        assert ElemSet(points) == ElemSet(init) + {last};
      }
    }
  }

  /** Every label is one upper-case letter. */
  predicate AllLabels(points: seq<string>) {
    forall i :: 0 <= i < |points| ==> IsPointLabel(points[i])
  }

  /** `points[k]` is the first label that is not one upper-case letter. */
  predicate FirstInvalidAt(points: seq<string>, k: int) {
    0 <= k < |points| && !IsPointLabel(points[k]) && forall i :: 0 <= i < k ==> IsPointLabel(points[i])
  }

  /** The first label of `points` that is not one upper-case letter. */
  function FirstInvalid(points: seq<string>): Option<string> {
    if points == [] then None
    else if !IsPointLabel(points[0]) then Some(points[0])
    else FirstInvalid(points[1..])
  }

  /** There is no malformed label exactly when every label is one upper-case
      letter; otherwise the one found is the first malformed label. */
  lemma {:induction false} FirstInvalidSpec(points: seq<string>)
    ensures FirstInvalid(points).None? <==> AllLabels(points)
    ensures FirstInvalid(points).Some? ==> exists k :: FirstInvalidAt(points, k) && points[k] == FirstInvalid(points).value
  {
    if points != [] && IsPointLabel(points[0]) {
      var tail := points[1..];
      FirstInvalidSpec(tail);
      assert AllLabels(points) <==> AllLabels(tail) by {
        if AllLabels(tail) {
          forall i | 0 <= i < |points| ensures IsPointLabel(points[i]) {
            if i > 0 { assert points[i] == tail[i - 1]; }
          }
        }
      }
      if FirstInvalid(tail).Some? {
        var k :| FirstInvalidAt(tail, k) && tail[k] == FirstInvalid(tail).value;
        assert points[k + 1] == tail[k];
        forall i | 0 <= i < k + 1 ensures IsPointLabel(points[i]) {
          if i > 0 { assert points[i] == tail[i - 1]; }
        }
        assert FirstInvalidAt(points, k + 1);
      }
    } else if points != [] {
      assert FirstInvalidAt(points, 0);
    }
  }

  /** What `verify_geometry_points` reports about a figure. */
  datatype PointsIssue = Duplicated | InvalidPoint(point: string)

  /** The report's text. */
  function IssueText(issue: PointsIssue): string {
    match issue
    case Duplicated => "Points géométriques dupliqués"
    case InvalidPoint(p) => "Point invalide: " + p
  }

  /** `verify_geometry_points`: no figure or no points passes; otherwise the
      labels must be distinct, then each one upper-case letter. */
  function VerifyGeometryPoints(spec: Spec): (r: Option<PointsIssue>)
    ensures r.Some? ==> spec.figureGeometrique.Some? && spec.figureGeometrique.value.points != []
  {
    match spec.figureGeometrique
    case None => None
    case Some(figure) =>
      if figure.points == [] then None
      else if |figure.points| != |ElemSet(figure.points)| then Some(Duplicated)
      else
        match FirstInvalid(figure.points)
        case Some(p) => Some(InvalidPoint(p))
        case None => None
  }

  /** A figure passes exactly when it has no points or distinct well-formed
      labels, and it is reported as duplicated exactly when its labels repeat. */
  lemma GeometryVerdict(spec: Spec)
    ensures VerifyGeometryPoints(spec).None? <==> (spec.figureGeometrique.None? || spec.figureGeometrique.value.points == []
      || (Constants.Distinct(spec.figureGeometrique.value.points) && AllLabels(spec.figureGeometrique.value.points)))
    ensures VerifyGeometryPoints(spec) == Some(Duplicated) <==> spec.figureGeometrique.Some? && !Constants.Distinct(spec.figureGeometrique.value.points)
  {
    if spec.figureGeometrique.Some? {
      ElemSetSize(spec.figureGeometrique.value.points);
      FirstInvalidSpec(spec.figureGeometrique.value.points);
    }
  }

  /** When the labels are distinct, a failing figure is reported by its first
      malformed label. */
  lemma InvalidReportsFirst(spec: Spec)
    requires spec.figureGeometrique.Some? && Constants.Distinct(spec.figureGeometrique.value.points)
    requires VerifyGeometryPoints(spec).Some?
    ensures exists k :: (FirstInvalidAt(spec.figureGeometrique.value.points, k)
      && VerifyGeometryPoints(spec) == Some(InvalidPoint(spec.figureGeometrique.value.points[k])))
  {
    var points := spec.figureGeometrique.value.points;
    GeometryVerdict(spec);
    ElemSetSize(points);
    FirstInvalidSpec(points);
  }

  /** Every group of the label pool passes the geometry check. */
  lemma PoolGroupsPass(spec: Spec, g: nat)
    requires g < |Constants.GeometryPointSets|
    requires spec.figureGeometrique == Some(Figure(Constants.GeometryPointSets[g]))
    ensures VerifyGeometryPoints(spec).None?
  {
    Constants.PointSetsShape();
    GeometryVerdict(spec);
    var points := Constants.GeometryPointSets[g];
    assert AllLabels(points) by {
      forall i | 0 <= i < |points| ensures IsPointLabel(points[i]) {
        assert Constants.IsPointLabel(points[i]);
      }
    }
  }

  // ---------------------------------------------------------------------
  // verify_calculations, Thalès branch
  // ---------------------------------------------------------------------

  /** Why a spec's calculations were rejected. */
  datatype CalcError =
    | SumAB(ab: Value, ad: Value, db: Value)
    | SumAC(ac: Value, ae: Value, ec: Value)
    | RatioMismatch(r1: real, r2: real)
    | TypeMismatch  // a `TypeError` caught by the check's own `except`

  /** `d.get(k, 0)`. */
  function Get(d: map<string, Value>, k: string): (v: Value)
    ensures k !in d ==> v == Num(0.0)
    ensures k in d ==> v == d[k]
  {
    if k in d then d[k] else Num(0.0)
  }

  /** Python's `+`: numbers add, strings concatenate, a mix raises `TypeError` (None). */
  function Plus(a: Value, b: Value): (r: Option<Value>)
    ensures r.None? <==> a.Num? != b.Num?
    ensures r.Some? && a.Num? ==> r.value == Num(a.x + b.x)
    ensures r.Some? && a.Str? ==> r.value == Str(a.s + b.s)
  {
    match (a, b)
    case (Num(x), Num(y)) => Some(Num(x + y))
    case (Str(s), Str(t)) => Some(Str(s + t))
    case _ => None
  }

  /** Python's `round(x, 4)` on an exact value: to the nearest multiple of
      1/10000, halves to the even neighbour. */
  function Round4(x: real): (r: real)
    ensures (r * 10000.0).Floor as real == r * 10000.0
    ensures -1.0 / 20000.0 <= r - x <= 1.0 / 20000.0
    ensures r - x == 1.0 / 20000.0 || x - r == 1.0 / 20000.0 ==> (r * 10000.0).Floor % 2 == 0
  {
    var y := x * 10000.0;
    var f := y.Floor;
    var d := y - f as real;
    var n := if d < 0.5 then f else if d > 0.5 then f + 1 else if f % 2 == 0 then f else f + 1;
    n as real / 10000.0
  }

  /** The Thalès branch on the six lengths: sums first (AB, then AC), then,
      only for positive AB and AC, the two rounded ratios. */
  function ThalesSides(ad: Value, db: Value, ae: Value, ec: Value, ab: Value, ac: Value): (r: Option<CalcError>)
  {
    match Plus(ad, db)
    case None => Some(TypeMismatch)
    case Some(s1) =>
      if ab != s1 then Some(SumAB(ab, ad, db))
      else
        match Plus(ae, ec)
        case None => Some(TypeMismatch)
        case Some(s2) =>
          if ac != s2 then Some(SumAC(ac, ae, ec))
          else if ab.Str? then Some(TypeMismatch)
          else if !(ab.x > 0.0) then None
          else if ac.Str? then Some(TypeMismatch)
          else if !(ac.x > 0.0) then None
          else
            var r1, r2 := Round4(ad.x / ab.x), Round4(ae.x / ac.x);
            if r1 - r2 > 0.01 || r2 - r1 > 0.01 then Some(RatioMismatch(r1, r2)) else None
  }

  /** The lengths are read from the parameters and the solution, 0 when absent. */
  function ThalesCheck(params: map<string, Value>, solution: map<string, Value>): Option<CalcError> {
    ThalesSides(Get(params, "AD"), Get(params, "DB"), Get(params, "AE"), Get(params, "EC"),
      Get(solution, "AB"), Get(solution, "AC"))
  }

  /** `verify_calculations`: only the Thalès branch is modelled. */
  function VerifyCalculations(spec: Spec): (r: Option<CalcError>)
    ensures spec.typeExercice != "thales" ==> r.None?
  {
    if spec.typeExercice == "thales" then ThalesCheck(spec.parametres, spec.solutionCalculee) else None
  }

  /** On numbers the Thalès check fails on the AB sum first, then on the AC sum,
      and otherwise only when the rounded ratios of positive lengths differ by
      more than 0.01. */
  lemma ThalesVerdict(ad: real, db: real, ae: real, ec: real, ab: real, ac: real)
    ensures var r := ThalesSides(Num(ad), Num(db), Num(ae), Num(ec), Num(ab), Num(ac));
      && (ab != ad + db ==> r == Some(SumAB(Num(ab), Num(ad), Num(db))))
      && (ab == ad + db && ac != ae + ec ==> r == Some(SumAC(Num(ac), Num(ae), Num(ec))))
      && (ab == ad + db && ac == ae + ec && (ab <= 0.0 || ac <= 0.0) ==> r.None?)
      && (ab == ad + db && ac == ae + ec && ab > 0.0 && ac > 0.0 ==>
            (r.Some? <==> (Round4(ad / ab) - Round4(ae / ac) > 0.01 || Round4(ae / ac) - Round4(ad / ab) > 0.01)))
  {
  }

  /** A string among numbers: a string AB only differs from the sum, so it is
      reported as a wrong sum; a string AD makes `AD + DB` raise, which the
      check catches as a type error. */
  lemma StringSideIsTypeError(ad: real, db: real, ae: real, ec: real, ab: string)
    ensures ThalesSides(Num(ad), Num(db), Num(ae), Num(ec), Str(ab), Num(ad + db)) == Some(SumAB(Str(ab), Num(ad), Num(db)))
    ensures ThalesSides(Str(ab), Num(db), Num(ae), Num(ec), Num(ad), Num(ae + ec)) == Some(TypeMismatch)
  {
  }

  /** Consistent sums and proportional sides (AD/AB = AE/AC) always pass. */
  lemma ProportionalSidesPass(ad: real, db: real, ae: real, ec: real)
    requires ad * (ae + ec) == ae * (ad + db)
    ensures ThalesSides(Num(ad), Num(db), Num(ae), Num(ec), Num(ad + db), Num(ae + ec)).None?
  {
    var ab, ac := ad + db, ae + ec;
    if ab > 0.0 && ac > 0.0 {
      assert ad / ab == ae / ac by {
        assert ad * ac == ae * ab;
        assert ad / ab == (ad * ac) / (ab * ac);
        assert ae / ac == (ae * ab) / (ac * ab);
      }
    }
  }

  /** Missing values count as 0, so an empty spec passes the Thalès check. */
  lemma EmptyThalesPasses()
    ensures ThalesCheck(map[], map[]).None?
  {
    assert Get(map[], "AB") == Num(0.0);
  }

  // ---------------------------------------------------------------------
  // TestResults
  // ---------------------------------------------------------------------

  /** A recorded error: its message and the parameters of the spec, if any. */
  datatype ErrorMessage = Plain(text: string) | Calculation(error: CalcError)
  datatype ErrorEntry = ErrorEntry(message: ErrorMessage, spec: Option<map<string, Value>>)
  datatype Example = Example(parametres: map<string, Value>, resultat: string)

  class TestResults {
    const generatorName: string
    var total: nat
    var success: nat
    var errors: seq<ErrorEntry>
    var warnings: seq<string>
    var examples: seq<Example>

    /** Every recorded outcome is a success or an error, and at most two
        examples are kept. */
    predicate Valid()
      reads this
    {
      success + |errors| == total && |examples| <= 2
    }

    /** `success / total * 100`, or 0 before anything is recorded. */
    function SuccessRate(): (r: real)
      reads this
      requires Valid()
      ensures 0.0 <= r <= 100.0
      ensures r == 100.0 <==> total > 0 && errors == []
    {
      if total > 0 then success as real / total as real * 100.0 else 0.0
    }

    constructor (name: string)
      ensures Valid() && generatorName == name
      ensures total == 0 && success == 0 && errors == [] && warnings == [] && examples == []
    {
      generatorName := name;
      total, success := 0, 0;
      errors, warnings, examples := [], [], [];
    }

    method AddSuccess()
      requires Valid()
      modifies this
      ensures Valid()
      ensures total == old(total) + 1 && success == old(success) + 1
      ensures errors == old(errors) && warnings == old(warnings) && examples == old(examples)
    {
      total := total + 1;
      success := success + 1;
    }

    method AddError(message: ErrorMessage, spec: Option<Spec>)
      requires Valid()
      modifies this
      ensures Valid()
      ensures total == old(total) + 1 && success == old(success)
      ensures errors == old(errors) + [ErrorEntry(message, if spec.Some? then Some(spec.value.parametres) else None)]
      ensures warnings == old(warnings) && examples == old(examples)
    {
      total := total + 1;
      errors := errors + [ErrorEntry(message, if spec.Some? then Some(spec.value.parametres) else None)];
    }

    method AddWarning(message: string)
      requires Valid()
      modifies this
      ensures Valid()
      ensures warnings == old(warnings) + [message]
      ensures total == old(total) && success == old(success) && errors == old(errors) && examples == old(examples)
    {
      warnings := warnings + [message];
    }

    method AddExample(spec: Spec)
      requires Valid()
      modifies this
      ensures Valid()
      ensures examples == if |old(examples)| < 2 then old(examples) + [Example(spec.parametres, spec.resultatFinal)] else old(examples)
      ensures total == old(total) && success == old(success) && errors == old(errors) && warnings == old(warnings)
    {
      if |examples| < 2 {
        examples := examples + [Example(spec.parametres, spec.resultatFinal)];
      }
    }
  }

  // ---------------------------------------------------------------------
  // test_generator
  // ---------------------------------------------------------------------

  /** One call of the generator: it raised (with the exception's text) or it
      returned a spec or None. */
  datatype Draw = Raised(text: string) | Returned(spec: Option<Spec>)

  /** What one iteration records. */
  datatype Outcome =
    | Failed(message: ErrorMessage, failedSpec: Option<Spec>)
    | Passed(passedSpec: Spec, warning: Option<string>)

  /** `str(e)[:100]`. */
  function Truncate100(s: string): (r: string)
    ensures |r| == if |s| <= 100 then |s| else 100
    ensures r == s[..|r|]
  {
    if |s| <= 100 then s else s[..100]
  }

  /** The checks of one iteration, in the order the loop body runs them. */
  function Classify(d: Draw): Outcome {
    match d
    case Raised(text) => Failed(Plain("Exception: " + Truncate100(text)), None)
    case Returned(None) => Failed(Plain("Spec None retournée"), None)
    case Returned(Some(spec)) =>
      if spec.parametres == map[] then Failed(Plain("Paramètres manquants"), Some(spec))
      else if spec.solutionCalculee == map[] then Failed(Plain("Solution calculée manquante"), Some(spec))
      else match VerifyCalculations(spec)
        case Some(e) => Failed(Calculation(e), Some(spec))
        case None =>
          var issue := if spec.figureGeometrique.Some? then VerifyGeometryPoints(spec) else None;
          Passed(spec, if issue.Some? then Some(IssueText(issue.value)) else None)
  }

  /** Number of passing draws among the first `n`. */
  function Passes(gen: nat -> Draw, n: nat): nat {
    if n == 0 then 0 else Passes(gen, n - 1) + (if Classify(gen(n - 1)).Passed? then 1 else 0)
  }

  /** Number of failing draws among the first `n`. */
  function Failures(gen: nat -> Draw, n: nat): nat {
    if n == 0 then 0 else Failures(gen, n - 1) + (if Classify(gen(n - 1)).Failed? then 1 else 0)
  }

  /** The error entry an outcome records, if any. */
  function ErrorOf(o: Outcome): (r: seq<ErrorEntry>)
    ensures |r| == if o.Failed? then 1 else 0
  {
    match o
    case Failed(m, s) => [ErrorEntry(m, if s.Some? then Some(s.value.parametres) else None)]
    case Passed(_, _) => []
  }

  /** The error entries of the first `n` draws, in order. */
  function ErrorsOf(gen: nat -> Draw, n: nat): seq<ErrorEntry> {
    if n == 0 then [] else ErrorsOf(gen, n - 1) + ErrorOf(Classify(gen(n - 1)))
  }

  /** The warning an outcome records, if any. */
  function WarningOf(o: Outcome): (r: seq<string>)
    ensures |r| <= if o.Passed? then 1 else 0
  {
    if o.Passed? && o.warning.Some? then [o.warning.value] else []
  }

  /** The warnings of the first `n` draws, in order. */
  function WarningsOf(gen: nat -> Draw, n: nat): seq<string> {
    if n == 0 then [] else WarningsOf(gen, n - 1) + WarningOf(Classify(gen(n - 1)))
  }

  /** The examples after one more outcome: a passing spec is kept while fewer
      than two are. */
  function ExamplesAfter(examples: seq<Example>, o: Outcome): (r: seq<Example>)
    ensures |r| == if o.Passed? && |examples| < 2 then |examples| + 1 else |examples|
  {
    if o.Passed? && |examples| < 2 then examples + [Example(o.passedSpec.parametres, o.passedSpec.resultatFinal)]
    else examples
  }

  /** The examples kept after the first `n` draws: the first two passing specs. */
  function ExamplesOf(gen: nat -> Draw, n: nat): seq<Example> {
    if n == 0 then [] else ExamplesAfter(ExamplesOf(gen, n - 1), Classify(gen(n - 1)))
  }

  /** Every draw is exactly one success or one error. */
  lemma {:induction false} EveryDrawCounted(gen: nat -> Draw, n: nat)
    ensures Passes(gen, n) + Failures(gen, n) == n
    ensures |ErrorsOf(gen, n)| == Failures(gen, n)
  {
    if n > 0 {
      EveryDrawCounted(gen, n - 1);
    }
  }

  /** At most two examples are kept, and fewer only when fewer draws passed. */
  lemma {:induction false} ExamplesBound(gen: nat -> Draw, n: nat)
    ensures |ExamplesOf(gen, n)| == if Passes(gen, n) < 2 then Passes(gen, n) else 2
  {
    if n > 0 {
      ExamplesBound(gen, n - 1);
    }
  }

  /** Warnings come only from passing draws. */
  lemma {:induction false} WarningsBound(gen: nat -> Draw, n: nat)
    ensures |WarningsOf(gen, n)| <= Passes(gen, n)
  {
    if n > 0 {
      WarningsBound(gen, n - 1);
    }
  }

  /** Records one draw; the outcome is the one `Classify` gives. */
  method RecordDraw(results: TestResults, d: Draw)
    requires results.Valid()
    modifies results
    ensures results.Valid()
    ensures var o := Classify(d);
      && results.total == old(results.total) + 1
      && results.success == old(results.success) + (if o.Passed? then 1 else 0)
      && results.errors == old(results.errors) + ErrorOf(o)
      && results.warnings == old(results.warnings) + WarningOf(o)
      && results.examples == ExamplesAfter(old(results.examples), o)
  {
    match d
    case Raised(text) =>
      results.AddError(Plain("Exception: " + Truncate100(text)), None);
    case Returned(None) =>
      results.AddError(Plain("Spec None retournée"), None);
    case Returned(Some(spec)) =>
      if spec.parametres == map[] {
        results.AddError(Plain("Paramètres manquants"), Some(spec));
        return;
      }
      if spec.solutionCalculee == map[] {
        results.AddError(Plain("Solution calculée manquante"), Some(spec));
        return;
      }
      var error := VerifyCalculations(spec);
      if error.Some? {
        results.AddError(Calculation(error.value), Some(spec));
        return;
      }
      if spec.figureGeometrique.Some? {
        var warning := VerifyGeometryPoints(spec);
        if warning.Some? {
          results.AddWarning(IssueText(warning.value));
        }
      }
      results.AddSuccess();
      results.AddExample(spec);
  }

  /** `test_generator`: `nbTests` draws, each recorded once; the results are the
      counts and lists the specification functions give. */
  method TestGenerator(name: string, gen: nat -> Draw, nbTests: nat) returns (results: TestResults)
    ensures fresh(results) && results.Valid() && results.generatorName == name
    ensures results.total == nbTests
    ensures results.success == Passes(gen, nbTests)
    ensures results.errors == ErrorsOf(gen, nbTests)
    ensures results.warnings == WarningsOf(gen, nbTests)
    ensures results.examples == ExamplesOf(gen, nbTests)
  {
    results := new TestResults(name);
    for i := 0 to nbTests
      invariant results.Valid() && results.generatorName == name
      invariant results.total == i && results.success == Passes(gen, i)
      invariant results.errors == ErrorsOf(gen, i) && results.warnings == WarningsOf(gen, i)
      invariant results.examples == ExamplesOf(gen, i)
    {
      RecordDraw(results, gen(i));
    }
  }
}
