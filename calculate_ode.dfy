/**
 * The solver adapter: given a parsed equation, pick solution methods in a fixed preference
 * order, try them until the first one succeeds, fall back to a homogeneous substitution and to
 * an integrating-factor repair, and report a readable label for every applicable method.
 *
 * Every computer-algebra call is a field of `Cas`, an uninterpreted function over the abstract
 * expression type `E`; a call that raises is modelled by `None`.
 */
module CalculateOde {
  import opened Wrappers

  /** The computer-algebra operations the adapter relies on. */
  datatype Cas<!E> = Cas(
    // the hint names the classifier reports as applicable; None when it raises (no derivative
    // of y(x) in the equation, or an equation that evaluated to a boolean)
    classify: E -> Option<seq<string>>,
    // dy/dx solved from the equation; None when solving raises
    solveDerivative: E -> Option<E>,
    // whether dy/dx with y replaced by v*x no longer mentions x; None when the test raises
    freeOfXUnderVx: E -> Option<bool>,
    // the solver run with one named hint; None when it raises
    dsolve: (E, string) -> Option<E>,
    // the equation in v(x) obtained from dy/dx by the substitution y = x*v(x)
    homogeneousSubstitution: E -> E,
    // that equation solved for v and mapped back by v = y/x; None when it raises
    dsolveBackSubstituted: E -> Option<E>,
    // the left-hand side of an equation whose right-hand side is 0, None otherwise
    zeroRhsLhs: E -> Option<E>,
    // the coefficients M of dx and N of dy in that left-hand side; None is the value the
    // code tests for, which SymPy's coeff never returns (an absent term has coefficient 0)
    coeffDx: E -> Option<E>,
    coeffDy: E -> Option<E>,
    // the simplified ratios (dM/dy - dN/dx) / N and (dN/dx - dM/dy) / M
    xRatio: (E, E) -> E,
    yRatio: (E, E) -> E,
    // the symbol x and the applied function y(x), the two globals of the module
    x: E,
    yOfX: E,
    // the free symbols of an expression
    freeSymbols: E -> set<E>,
    // the exponential of the integral of an expression with respect to a variable
    integratingFactor: (E, E) -> E,
    // the equation mu*M dx + mu*N dy = 0
    exactForm: (E, E, E) -> E,
    // the solution with the function y(x) shown as the plain symbol y
    showY: E -> E
  )

  /** The labels and the solution gathered by one run. */
  datatype Solved<E> = Solved(solution: Option<E>, labels: seq<string>)

  /** What the function as written does: raise in the classifier, return, or raise at its last
      line because the solution it calls `.subs` on is None. Its tags are never augmented. */
  datatype Outcome<E> =
    | ClassifierRaised
    | Returned(solution: E, labels: seq<string>)
    | RaisedOnNone(labels: seq<string>)

  /** Readable label of each hint name. */
  const MethodMap: map<string, string> := map[
    "separable" := "separable",
    "homogeneous" := "homogeneous",
    "1st_exact" := "exact",
    "1st_exact_integrating_factor" := "reduced to exact by integrating factor",
    "1st_linear" := "linear",
    "almost_linear" := "transformed to linear",
    "Bernoulli" := "Bernoulli",
    "nth_linear_constant_coeff_homogeneous" := "homogeneous",
    "nth_linear_constant_coeff_undetermined_coefficients" := "non-homogeneous",
    "nth_linear_constant_coeff_variation_of_parameters" := "variation of parameters",
    "separable_parallel" := "separable"
  ]

  /** The order in which methods are tried and labelled. */
  const PreferredOrder: seq<string> := [
    "Bernoulli",
    "1st_linear",
    "separable",
    "almost_linear",
    "homogeneous",
    "1st_exact",
    "1st_exact_integrating_factor",
    "nth_linear_constant_coeff_homogeneous",
    "nth_linear_constant_coeff_undetermined_coefficients",
    "nth_linear_constant_coeff_variation_of_parameters"
  ]

  /** The tag the integrating-factor repair reports. */
  const ExactTag: string := "1st_exact"

  lemma PreferredOrderMapped()
    ensures forall m :: m in PreferredOrder ==> m in MethodMap
  {
  }

  // ---------------------------------------------------------------------------
  // Classification
  // ---------------------------------------------------------------------------

  /** The classifier's tags `classified`, with "homogeneous" appended when the classifier did
      not report it and dy/dx under y = v*x is free of x; a failure anywhere in that test
      changes nothing. This is the augmentation the code intends. */
  function Augmented<E>(cas: Cas<E>, eq: E, classified: seq<string>): (tags: seq<string>)
    ensures tags == classified || tags == classified + ["homogeneous"]
    ensures tags != classified <==>
      && "homogeneous" !in classified
      && cas.solveDerivative(eq).Some?
      && cas.freeOfXUnderVx(cas.solveDerivative(eq).value) == Some(true)
    ensures forall m :: m in tags <==> m in classified || (m == "homogeneous" && tags != classified)
    ensures multiset(tags)["homogeneous"] <= 1 + multiset(classified)["homogeneous"]
    ensures multiset(classified)["homogeneous"] == 0 ==> multiset(tags)["homogeneous"] <= 1
  {
    if "homogeneous" in classified then classified
    else match cas.solveDerivative(eq)
      case None => classified
      case Some(dydx) =>
        if cas.freeOfXUnderVx(dydx) == Some(true) then classified + ["homogeneous"] else classified
  }

  /** The augmentation as written: the classifier returns a tuple, so the `append` raises
      inside the `try` and is swallowed; the tags are never extended. */
  function AugmentedAsWritten(classified: seq<string>): (tags: seq<string>)
  {
    classified
  }

  /** Whenever the homogeneity test passes, the intended augmentation adds "homogeneous" and
      the code as written loses it. */
  lemma AugmentationLost<E>(cas: Cas<E>, eq: E, classified: seq<string>)
    requires "homogeneous" !in classified
    requires cas.solveDerivative(eq).Some? && cas.freeOfXUnderVx(cas.solveDerivative(eq).value) == Some(true)
    ensures "homogeneous" in Augmented(cas, eq, classified)
    ensures "homogeneous" !in AugmentedAsWritten(classified)
  {
  }

  // ---------------------------------------------------------------------------
  // The preference walk
  // ---------------------------------------------------------------------------

  /** The methods of `order` that occur in `tags`, in the order of `order`. */
  function Present(order: seq<string>, tags: seq<string>): seq<string>
  {
    if order == [] then []
    else Present(order[..|order| - 1], tags)
         + (if order[|order| - 1] in tags then [order[|order| - 1]] else [])
  }

  /** The readable label of each method, one per method. */
  function Readable(methods: seq<string>): (labels: seq<string>)
    requires forall m :: m in methods ==> m in MethodMap
    ensures |labels| == |methods|
    ensures forall i :: 0 <= i < |methods| ==> labels[i] == MethodMap[methods[i]]
  {
    seq(|methods|, i requires 0 <= i < |methods| => MethodMap[methods[i]])
  }

  /** The labels of the whole preference walk for the given tags. */
  function Labels(tags: seq<string>): (labels: seq<string>)
    ensures |labels| == |Present(PreferredOrder, tags)|
    ensures forall i :: 0 <= i < |labels| ==>
      Present(PreferredOrder, tags)[i] in MethodMap && labels[i] == MethodMap[Present(PreferredOrder, tags)[i]]
  {
    PreferredOrderMapped();
    PresentMembers(PreferredOrder, tags);
    Readable(Present(PreferredOrder, tags))
  }

  /** solve_homogeneous: dy/dx, substituted with y = x*v(x), solved for v and mapped back. */
  function SolveHomogeneous<E>(cas: Cas<E>, eq: E): (r: Option<E>)
    ensures r.Some? ==> cas.solveDerivative(eq).Some?
    ensures cas.solveDerivative(eq).Some? ==>
      r == cas.dsolveBackSubstituted(cas.homogeneousSubstitution(cas.solveDerivative(eq).value))
  {
    match cas.solveDerivative(eq)
    case None => None
    case Some(dydx) => cas.dsolveBackSubstituted(cas.homogeneousSubstitution(dydx))
  }

  /** The fallback sees the equation only through dy/dx: two equations with the same dy/dx get
      the same fallback result. */
  lemma FallbackDependsOnlyOnDerivative<E>(cas: Cas<E>, e1: E, e2: E)
    requires cas.solveDerivative(e1) == cas.solveDerivative(e2)
    ensures SolveHomogeneous(cas, e1) == SolveHomogeneous(cas, e2)
  {
  }

  /** One attempt with one method; only a failed "homogeneous" attempt has a fallback. */
  function Attempt<E>(cas: Cas<E>, eq: E, m: string): (r: Option<E>)
    ensures cas.dsolve(eq, m).Some? ==> r == cas.dsolve(eq, m)
    ensures m != "homogeneous" ==> r == cas.dsolve(eq, m)
    ensures r.Some? && cas.dsolve(eq, m).None? ==> m == "homogeneous" && r == SolveHomogeneous(cas, eq)
    ensures cas.dsolve(eq, m).None? && m == "homogeneous" ==> r == SolveHomogeneous(cas, eq)
  {
    match cas.dsolve(eq, m)
    case Some(s) => Some(s)
    case None => if m == "homogeneous" then SolveHomogeneous(cas, eq) else None
  }

  /** The solution the walk keeps: attempts stop at the first one that succeeds. */
  function FirstSuccess<E>(cas: Cas<E>, eq: E, methods: seq<string>): Option<E>
  {
    if methods == [] then None
    else
      var earlier := FirstSuccess(cas, eq, methods[..|methods| - 1]);
      if earlier.Some? then earlier else Attempt(cas, eq, methods[|methods| - 1])
  }

  // ---------------------------------------------------------------------------
  // The integrating-factor repair (non_exact)
  // ---------------------------------------------------------------------------

  /** For `M dx + N dy = 0`, an integrating factor depending on x alone is preferred; one on y
      alone is tried only when that fails; the repaired equation is reported with "1st_exact". */
  function NonExact<E>(cas: Cas<E>, eq: E): (r: Option<(E, string)>)
    ensures r.Some? ==> r.value.1 == ExactTag
  {
    match cas.zeroRhsLhs(eq)
    case None => None
    case Some(lhs) =>
      match (cas.coeffDx(lhs), cas.coeffDy(lhs))
      case (Some(m), Some(n)) =>
        var ratio1 := cas.xRatio(m, n);
        if cas.freeSymbols(ratio1) == {cas.x} then
          Some((cas.exactForm(cas.integratingFactor(ratio1, cas.x), m, n), ExactTag))
        else
          var ratio2 := cas.yRatio(m, n);
          if cas.freeSymbols(ratio2) == {cas.yOfX} then
            Some((cas.exactForm(cas.integratingFactor(ratio2, cas.yOfX), m, n), ExactTag))
          else None
      case _ => None
  }

  /** Which side the integrating factor was taken from. */
  lemma NonExactBranches<E>(cas: Cas<E>, eq: E)
    ensures NonExact(cas, eq).Some? <==>
      && cas.zeroRhsLhs(eq).Some?
      && var lhs := cas.zeroRhsLhs(eq).value;
      && cas.coeffDx(lhs).Some? && cas.coeffDy(lhs).Some?
      && var (m, n) := (cas.coeffDx(lhs).value, cas.coeffDy(lhs).value);
      (cas.freeSymbols(cas.xRatio(m, n)) == {cas.x} || cas.freeSymbols(cas.yRatio(m, n)) == {cas.yOfX})
    ensures NonExact(cas, eq).Some? ==>
      var lhs := cas.zeroRhsLhs(eq).value;
      var (m, n) := (cas.coeffDx(lhs).value, cas.coeffDy(lhs).value);
      var mu := if cas.freeSymbols(cas.xRatio(m, n)) == {cas.x}
                then cas.integratingFactor(cas.xRatio(m, n), cas.x)
                else cas.integratingFactor(cas.yRatio(m, n), cas.yOfX);
      NonExact(cas, eq).value.0 == cas.exactForm(mu, m, n)
  {
  }

  /** Free symbols are symbols: the applied function y(x) is never one of them. */
  ghost predicate SymbolsOnly<E(!new)>(cas: Cas<E>)
  {
    forall e :: cas.yOfX !in cas.freeSymbols(e)
  }

  /** The test against the set holding y(x) never passes, so every repair comes from a factor
      in x; a ratio in y(x) alone has the free symbol x and takes the x branch. */
  lemma OnlyXFactor<E(!new)>(cas: Cas<E>, eq: E)
    requires SymbolsOnly(cas)
    ensures NonExact(cas, eq).Some? ==>
      var lhs := cas.zeroRhsLhs(eq).value;
      var (m, n) := (cas.coeffDx(lhs).value, cas.coeffDy(lhs).value);
      && cas.freeSymbols(cas.xRatio(m, n)) == {cas.x}
      && NonExact(cas, eq).value.0 == cas.exactForm(cas.integratingFactor(cas.xRatio(m, n), cas.x), m, n)
  {
    if NonExact(cas, eq).Some? {
      var lhs := cas.zeroRhsLhs(eq).value;
      var (m, n) := (cas.coeffDx(lhs).value, cas.coeffDy(lhs).value);
      assert cas.yOfX !in cas.freeSymbols(cas.yRatio(m, n));
    }
  }

  // ---------------------------------------------------------------------------
  // The whole run
  // ---------------------------------------------------------------------------

  /** Everything between the augmentation and the last line, for the tags `tags`: labels of
      all present methods in preference order, the first successful attempt, and the repair
      only when no attempt succeeded. */
  function Search<E>(cas: Cas<E>, eq: E, tags: seq<string>): Solved<E>
  {
    var present := Present(PreferredOrder, tags);
    var labels := Labels(tags);
    var walked := FirstSuccess(cas, eq, present);
    if walked.Some? then Solved(walked, labels)
    else match NonExact(cas, eq)
      case None => Solved(None, labels)
      case Some((ex, tag)) => Solved(cas.dsolve(ex, tag), labels + [tag])
  }

  /** The function as written: the tags are the classifier's own (the augmentation is lost),
      and the last line calls `.subs` on the solution, which raises when it is None. */
  function SolvingOdeAsWritten<E>(cas: Cas<E>, eq: E): Outcome<E>
  {
    match cas.classify(eq)
    case None => ClassifierRaised
    case Some(classified) =>
      var s := Search(cas, eq, AugmentedAsWritten(classified));
      match s.solution
      case Some(sol) => Returned(cas.showY(sol), s.labels)
      case None => RaisedOnNone(s.labels)
  }

  /** The result the caller expects: the augmented tags, and `(None, labels)` when nothing
      succeeded. None stands for the classifier's exception, which nothing in the function
      catches. */
  function Intended<E>(cas: Cas<E>, eq: E): Option<Solved<E>>
  {
    match cas.classify(eq)
    case None => None
    case Some(classified) =>
      var s := Search(cas, eq, Augmented(cas, eq, classified));
      match s.solution
      case Some(sol) => Some(Solved(Some(cas.showY(sol)), s.labels))
      case None => Some(Solved(None, s.labels))
  }

  /** The loop over the preference order: a label for every present method, and an
      attempt for each present method only while no solution has been found. */
  method PreferenceWalk<E>(cas: Cas<E>, eq: E, order: seq<string>, classifying: seq<string>)
    returns (solution: Option<E>, readableClasses: seq<string>)
    requires forall m :: m in order ==> m in MethodMap
    ensures forall m :: m in Present(order, classifying) ==> m in MethodMap
    ensures readableClasses == Readable(Present(order, classifying))
    ensures solution == FirstSuccess(cas, eq, Present(order, classifying))
  {
    readableClasses := [];
    solution := None;
    var i := 0;
    while i < |order|
      invariant 0 <= i <= |order|
      invariant forall m :: m in Present(order[..i], classifying) ==> m in order
      invariant readableClasses == Readable(Present(order[..i], classifying))
      invariant solution == FirstSuccess(cas, eq, Present(order[..i], classifying))
    {
      var hint := order[i];
      ghost var before := Present(order[..i], classifying);
      assert order[..i + 1][..i] == order[..i];
      if hint in classifying {
        assert Present(order[..i + 1], classifying) == before + [hint];
        readableClasses := readableClasses + [MethodMap[hint]];
        if solution.None? {
          solution := cas.dsolve(eq, hint);
          if solution.None? && hint == "homogeneous" {
            solution := SolveHomogeneous(cas, eq);
          }
        }
      } else {
        assert Present(order[..i + 1], classifying) == before;
      }
      i := i + 1;
    }
    assert order[..i] == order;
  }

  /** solving_ode, with the final line returning None instead of raising; `None` is the
      classifier's exception leaving the function. */
  method SolvingOde<E>(cas: Cas<E>, eq: E) returns (run: Option<Solved<E>>)
    ensures run == Intended(cas, eq)
  {
    var classified := cas.classify(eq);
    if classified.None? {
      return None;
    }
    var classifying := classified.value;
    if "homogeneous" !in classifying {
      match cas.solveDerivative(eq) {
        case Some(dydx) =>
          if cas.freeOfXUnderVx(dydx) == Some(true) {
            classifying := classifying + ["homogeneous"];
          }
        case None =>
      }
    }
    assert classifying == Augmented(cas, eq, classified.value);

    PreferredOrderMapped();
    var solution, readableClasses := PreferenceWalk(cas, eq, PreferredOrder, classifying);

    if solution.None? {
      match NonExact(cas, eq) {
        case Some((ex, type1)) =>
          readableClasses := readableClasses + [type1];
          solution := cas.dsolve(ex, type1);
        case None =>
      }
    }

    if solution.Some? {
      solution := Some(cas.showY(solution.value));
    }
    run := Some(Solved(solution, readableClasses));
  }

  // ---------------------------------------------------------------------------
  // Properties
  // ---------------------------------------------------------------------------

  /** A method is present exactly when the preference order lists it and the tags hold it. */
  lemma {:induction false} PresentMembers(order: seq<string>, tags: seq<string>)
    ensures forall m :: m in Present(order, tags) <==> m in order && m in tags
  {
    if order != [] {
      var init := order[..|order| - 1];
      PresentMembers(init, tags);
      assert order == init + [order[|order| - 1]];
    }
  }

  /** Only membership in the tags matters: the classifier's order and repetitions never show. */
  lemma {:induction false} PresentIgnoresTagOrder(order: seq<string>, tags1: seq<string>, tags2: seq<string>)
    requires forall m :: m in tags1 <==> m in tags2
    ensures Present(order, tags1) == Present(order, tags2)
  {
    if order != [] {
      PresentIgnoresTagOrder(order[..|order| - 1], tags1, tags2);
    }
  }

  /** Position of a method in the preference order. */
  function Rank(order: seq<string>, m: string): (k: nat)
    requires m in order
    ensures k < |order| && order[k] == m && m !in order[..k]
  {
    if order[0] == m then 0
    else
      assert order == [order[0]] + order[1..];
      var k := Rank(order[1..], m);
      assert order[..k + 1] == [order[0]] + order[1..][..k];
      1 + k
  }

  predicate Distinct(s: seq<string>)
  {
    forall i, j :: 0 <= i < j < |s| ==> s[i] != s[j]
  }

  /** Every element of `p` is listed in `order`, and the elements come in strictly
      increasing position in `order`. */
  predicate Ascending(order: seq<string>, p: seq<string>)
  {
    && (forall i :: 0 <= i < |p| ==> p[i] in order)
    && (forall i, j :: 0 <= i < j < |p| ==> p[i] in order && p[j] in order && Rank(order, p[i]) < Rank(order, p[j]))
  }

  /** For a preference order without repetitions, the present methods come strictly in
      preference order. */
  lemma {:induction false} PresentFollowsOrder(order: seq<string>, tags: seq<string>)
    requires Distinct(order)
    ensures Ascending(order, Present(order, tags))
  {
    var p := Present(order, tags);
    PresentMembers(order, tags);
    if order != [] {
      var init := order[..|order| - 1];
      var last := order[|order| - 1];
      var q := Present(init, tags);
      assert Distinct(init);
      PresentFollowsOrder(init, tags);
      PresentMembers(init, tags);
      forall m | m in init
        ensures Rank(order, m) == Rank(init, m) && Rank(init, m) < |order| - 1
      {
        var k := Rank(init, m);
        assert order[k] == m;
        assert order[..k] == init[..k];
        RankUnique(order, m, k);
      }
      forall i, j | 0 <= i < j < |p|
        ensures p[i] in order && p[j] in order && Rank(order, p[i]) < Rank(order, p[j])
      {
        assert p[i] == q[i] && q[i] in init;
        if j < |q| {
          assert p[j] == q[j] && q[j] in init;
          assert Rank(init, q[i]) < Rank(init, q[j]);
        } else {
          assert p[j] == last;
          RankUnique(order, last, |order| - 1);
        }
      }
    }
  }

  lemma RankUnique(order: seq<string>, m: string, k: nat)
    requires k < |order| && order[k] == m && m !in order[..k]
    ensures Rank(order, m) == k
  {
  }

  /** In an ascending sequence, an element ranked earlier sits at an earlier position. */
  lemma AscendingPositions(order: seq<string>, p: seq<string>, i: nat, j: nat)
    requires Ascending(order, p) && i < |p| && j < |p|
    requires p[i] in order && p[j] in order && Rank(order, p[i]) < Rank(order, p[j])
    ensures i < j
  {
  }

  /** Two tagged methods keep their relative preference order among the present methods:
      every position of the earlier one precedes every position of the later. */
  lemma PresentKeepsOrder(order: seq<string>, tags: seq<string>, a: string, b: string)
    requires Distinct(order)
    requires a in order && b in order && Rank(order, a) < Rank(order, b)
    requires a in tags && b in tags
    ensures var p := Present(order, tags);
      && a in p && b in p
      && forall i, j :: 0 <= i < |p| && 0 <= j < |p| && p[i] == a && p[j] == b ==> i < j
  {
    var p := Present(order, tags);
    PresentMembers(order, tags);
    PresentFollowsOrder(order, tags);
    forall i, j | 0 <= i < |p| && 0 <= j < |p| && p[i] == a && p[j] == b
      ensures i < j
    {
      AscendingPositions(order, p, i, j);
    }
  }

  lemma PreferredOrderDistinct()
    ensures Distinct(PreferredOrder)
  {
  }

  /** An equation classified both linear and separable lists "linear" before "separable",
      whatever order the classifier reported them in. */
  lemma LinearBeforeSeparable(tags: seq<string>)
    requires "1st_linear" in tags && "separable" in tags
    ensures var labels := Labels(tags);
      && "linear" in labels && "separable" in labels
      && forall i, j :: 0 <= i < |labels| && 0 <= j < |labels| && labels[i] == "linear" && labels[j] == "separable" ==> i < j
  {
    var p := Present(PreferredOrder, tags);
    var labels := Labels(tags);
    LinearRankedBeforeSeparable();
    PresentKeepsOrder(PreferredOrder, tags, "1st_linear", "separable");
    forall i, j | 0 <= i < |labels| && 0 <= j < |labels| && labels[i] == "linear" && labels[j] == "separable"
      ensures i < j
    {
      LinearLabelSource(tags, i);
      SeparableLabelSource(tags, j);
    }
    var ia :| 0 <= ia < |p| && p[ia] == "1st_linear";
    var ib :| 0 <= ib < |p| && p[ib] == "separable";
    LinearLabelSource(tags, ia);
    SeparableLabelSource(tags, ib);
  }

  /** Labels can repeat: an equation tagged with both homogeneous hints reports
      "homogeneous" twice, first for the first-order hint. */
  lemma HomogeneousLabelTwice(tags: seq<string>)
    requires "homogeneous" in tags && "nth_linear_constant_coeff_homogeneous" in tags
    ensures exists i, j :: 0 <= i < j < |Labels(tags)| && Labels(tags)[i] == "homogeneous" && Labels(tags)[j] == "homogeneous"
  {
    var p := Present(PreferredOrder, tags);
    HomogeneousHintsRanked();
    PresentKeepsOrder(PreferredOrder, tags, "homogeneous", "nth_linear_constant_coeff_homogeneous");
    var i :| 0 <= i < |p| && p[i] == "homogeneous";
    var j :| 0 <= j < |p| && p[j] == "nth_linear_constant_coeff_homogeneous";
    HomogeneousLabelAt(tags, i);
    HomogeneousLabelAt(tags, j);
  }

  /** Both homogeneous hints read "homogeneous". */
  lemma HomogeneousLabelAt(tags: seq<string>, i: nat)
    requires i < |Present(PreferredOrder, tags)|
    requires Present(PreferredOrder, tags)[i] == "homogeneous"
          || Present(PreferredOrder, tags)[i] == "nth_linear_constant_coeff_homogeneous"
    ensures i < |Labels(tags)| && Labels(tags)[i] == "homogeneous"
  {
  }

  /** The first-order homogeneous hint is preferred to the constant-coefficient one. */
  lemma HomogeneousHintsRanked()
    ensures Distinct(PreferredOrder)
    ensures "homogeneous" in PreferredOrder && "nth_linear_constant_coeff_homogeneous" in PreferredOrder
    ensures Rank(PreferredOrder, "homogeneous") < Rank(PreferredOrder, "nth_linear_constant_coeff_homogeneous")
  {
    PreferredOrderDistinct();
    RankUnique(PreferredOrder, "homogeneous", 4);
    RankUnique(PreferredOrder, "nth_linear_constant_coeff_homogeneous", 7);
  }

  lemma LinearLabelSource(tags: seq<string>, i: nat)
    requires i < |Labels(tags)|
    ensures Labels(tags)[i] == "linear" <==> Present(PreferredOrder, tags)[i] == "1st_linear"
  {
    LabelOrigins();
    LabelSource(tags, i, "1st_linear", "linear");
  }

  lemma SeparableLabelSource(tags: seq<string>, i: nat)
    requires i < |Labels(tags)|
    ensures Labels(tags)[i] == "separable" <==> Present(PreferredOrder, tags)[i] == "separable"
  {
    LabelOrigins();
    LabelSource(tags, i, "separable", "separable");
  }

  /** A label that only one listed method carries shows exactly where that method is present. */
  lemma LabelSource(tags: seq<string>, i: nat, m: string, name: string)
    requires i < |Labels(tags)|
    requires m in PreferredOrder && m in MethodMap && MethodMap[m] == name
    requires forall m' :: m' in PreferredOrder && MethodMap[m'] == name ==> m' == m
    ensures Labels(tags)[i] == name <==> Present(PreferredOrder, tags)[i] == m
  {
    PresentMembers(PreferredOrder, tags);
  }

  /** "1st_linear" comes before "separable" in the preference order. */
  lemma LinearRankedBeforeSeparable()
    ensures Distinct(PreferredOrder)
    ensures "1st_linear" in PreferredOrder && "separable" in PreferredOrder
    ensures Rank(PreferredOrder, "1st_linear") < Rank(PreferredOrder, "separable")
  {
    PreferredOrderDistinct();
    RankUnique(PreferredOrder, "1st_linear", 1);
    RankUnique(PreferredOrder, "separable", 2);
  }

  /** Within the preference order, only "1st_linear" reads "linear", only "separable" reads
      "separable" and only "1st_exact" reads "exact". */
  lemma LabelOrigins()
    ensures forall m :: m in PreferredOrder && MethodMap[m] == "linear" ==> m == "1st_linear"
    ensures forall m :: m in PreferredOrder && MethodMap[m] == "separable" ==> m == "separable"
    ensures forall m :: m in PreferredOrder && MethodMap[m] == "exact" ==> m == "1st_exact"
  {
  }

  /** A tag the preference order does not list, such as "separable_parallel", adds no label. */
  lemma UnlistedTagAddsNothing(tags: seq<string>, m: string)
    requires m !in PreferredOrder
    ensures Present(PreferredOrder, tags + [m]) == Present(PreferredOrder, tags)
  {
    PresentMembers(PreferredOrder, tags + [m]);
    PresentMembers(PreferredOrder, tags);
    assert forall t :: t in PreferredOrder ==> (t in tags + [m] <==> t in tags);
    PresentOnlyListed(PreferredOrder, tags + [m], tags);
  }

  lemma {:induction false} PresentOnlyListed(order: seq<string>, tags1: seq<string>, tags2: seq<string>)
    requires forall m :: m in order ==> (m in tags1 <==> m in tags2)
    ensures Present(order, tags1) == Present(order, tags2)
  {
    if order != [] {
      PresentOnlyListed(order[..|order| - 1], tags1, tags2);
    }
  }

  /** The walk keeps the attempt of the first method that succeeds, and nothing when none does. */
  lemma {:induction false} FirstSuccessIsFirst<E>(cas: Cas<E>, eq: E, methods: seq<string>)
    ensures FirstSuccess(cas, eq, methods).None? <==>
      forall i :: 0 <= i < |methods| ==> Attempt(cas, eq, methods[i]).None?
    ensures FirstSuccess(cas, eq, methods).Some? ==>
      exists i :: 0 <= i < |methods|
        && FirstSuccess(cas, eq, methods) == Attempt(cas, eq, methods[i])
        && forall j :: 0 <= j < i ==> Attempt(cas, eq, methods[j]).None?
  {
    if methods != [] {
      var init := methods[..|methods| - 1];
      FirstSuccessIsFirst(cas, eq, init);
      assert forall i :: 0 <= i < |init| ==> methods[i] == init[i];
      if FirstSuccess(cas, eq, init).Some? {
        var i :| 0 <= i < |init|
          && FirstSuccess(cas, eq, init) == Attempt(cas, eq, init[i])
          && forall j :: 0 <= j < i ==> Attempt(cas, eq, init[j]).None?;
        assert FirstSuccess(cas, eq, methods) == Attempt(cas, eq, methods[i]);
      }
    }
  }

  /** The labels name every present method, whether or not a solution was already found, and
      the raw tag "1st_exact" (never a readable label) is added exactly when the walk found
      nothing and the integrating-factor repair applies, whether or not the repaired equation
      then solves. */
  lemma SearchLabels<E>(cas: Cas<E>, eq: E, tags: seq<string>)
    ensures var present := Present(PreferredOrder, tags);
      var repaired := FirstSuccess(cas, eq, present).None? && NonExact(cas, eq).Some?;
      && Search(cas, eq, tags).labels == Labels(tags) + (if repaired then [ExactTag] else [])
      && (ExactTag in Search(cas, eq, tags).labels <==> repaired)
  {
    var present := Present(PreferredOrder, tags);
    PreferredOrderMapped();
    PresentMembers(PreferredOrder, tags);
    var labels := Labels(tags);
    assert ExactTag !in labels by {
      assert forall m :: m in MethodMap ==> MethodMap[m] != ExactTag;
    }
  }

  /** The repair reports the raw tag "1st_exact", not its label "exact": the label "exact" is
      reported only when the tags themselves hold "1st_exact". */
  lemma ExactLabelOnlyFromTags<E>(cas: Cas<E>, eq: E, tags: seq<string>)
    ensures "exact" in Search(cas, eq, tags).labels <==> "1st_exact" in tags
  {
    var p := Present(PreferredOrder, tags);
    var labels := Labels(tags);
    SearchLabels(cas, eq, tags);
    PresentMembers(PreferredOrder, tags);
    if "exact" in labels {
      var i :| 0 <= i < |labels| && labels[i] == "exact";
      ExactLabelSource(tags, i);
    }
    if "1st_exact" in tags {
      var i :| 0 <= i < |p| && p[i] == "1st_exact";
      ExactLabelSource(tags, i);
    }
  }

  lemma ExactLabelSource(tags: seq<string>, i: nat)
    requires i < |Labels(tags)|
    ensures Labels(tags)[i] == "exact" <==> Present(PreferredOrder, tags)[i] == "1st_exact"
  {
    LabelOrigins();
    LabelSource(tags, i, "1st_exact", "exact");
  }

  /** The solution comes from the first preferred method whose attempt succeeds; only when
      every attempt failed does the repaired equation get solved with "1st_exact". */
  lemma SearchSolution<E>(cas: Cas<E>, eq: E, tags: seq<string>)
    ensures var present := Present(PreferredOrder, tags);
      && (FirstSuccess(cas, eq, present).Some? ==> Search(cas, eq, tags).solution == FirstSuccess(cas, eq, present))
      && (FirstSuccess(cas, eq, present).None? ==>
            Search(cas, eq, tags).solution ==
              (if NonExact(cas, eq).Some? then cas.dsolve(NonExact(cas, eq).value.0, ExactTag) else None))
  {
  }

  /** Both raise alike when the classifier does. Otherwise the last line raises exactly when
      the walk over the classifier's own tags and the repair find nothing, and the code as
      written agrees with the intended result whenever the augmentation does not fire. */
  lemma AsWrittenRaisesIffUnsolved<E>(cas: Cas<E>, eq: E)
    ensures SolvingOdeAsWritten(cas, eq).ClassifierRaised? <==> Intended(cas, eq).None?
    ensures cas.classify(eq).Some? ==>
      (SolvingOdeAsWritten(cas, eq).RaisedOnNone? <==>
         Search(cas, eq, AugmentedAsWritten(cas.classify(eq).value)).solution.None?)
    ensures cas.classify(eq).Some? && Augmented(cas, eq, cas.classify(eq).value) == cas.classify(eq).value ==>
      && (SolvingOdeAsWritten(cas, eq).RaisedOnNone? ==>
            Intended(cas, eq) == Some(Solved(None, SolvingOdeAsWritten(cas, eq).labels)))
      && (SolvingOdeAsWritten(cas, eq).Returned? ==>
            Intended(cas, eq) == Some(Solved(Some(SolvingOdeAsWritten(cas, eq).solution), SolvingOdeAsWritten(cas, eq).labels)))
  {
  }

  /** A concrete run where only the fallback of "homogeneous" would succeed and the classifier
      does not report it: the intended function solves the equation, the code as written raises
      at its last line. */
  lemma LostHomogeneousRaises()
    ensures var cas := OnlyHomogeneousSolves();
      && SolvingOdeAsWritten(cas, 0) == RaisedOnNone([])
      && Intended(cas, 0) == Some(Solved(Some(7), ["homogeneous"]))
  {
    var cas := OnlyHomogeneousSolves();
    assert Augmented(cas, 0, []) == ["homogeneous"];
    PresentWithoutTags(PreferredOrder);
    assert Search(cas, 0, []) == Solved(None, []);
    HomogeneousAlone(cas);
  }

  lemma HomogeneousAlone(cas: Cas<int>)
    requires cas == OnlyHomogeneousSolves()
    ensures Search(cas, 0, ["homogeneous"]) == Solved(Some(7), ["homogeneous"])
  {
    PreferredOrderDistinct();
    PresentSingle(PreferredOrder, "homogeneous");
    var present := Present(PreferredOrder, ["homogeneous"]);
    assert present == ["homogeneous"];
    assert Labels(["homogeneous"]) == ["homogeneous"];
    assert Attempt(cas, 0, "homogeneous") == Some(7);
    assert FirstSuccess(cas, 0, present) == Some(7) by {
      assert present[..0] == [];
    }
  }

  /** With distinct methods in the order, a single tag is present at most once. */
  lemma {:induction false} PresentSingle(order: seq<string>, m: string)
    requires Distinct(order)
    ensures Present(order, [m]) == if m in order then [m] else []
  {
    if order != [] {
      var init := order[..|order| - 1];
      assert Distinct(init) by {
        forall i, j | 0 <= i < j < |init| ensures init[i] != init[j] {
          assert init[i] == order[i] && init[j] == order[j];
        }
      }
      PresentSingle(init, m);
      assert order == init + [order[|order| - 1]];
      if order[|order| - 1] == m {
        assert m !in init by {
          forall i | 0 <= i < |init| ensures init[i] != m {
            assert init[i] == order[i];
          }
        }
      }
    }
  }

  /** A concrete run: a classifier that reports nothing and a solver that fails everywhere.
      As written the function raises; the intended result is `(None, [])`. */
  lemma UnsolvableEquationRaises()
    ensures var cas := NothingSolves();
      SolvingOdeAsWritten(cas, 0) == RaisedOnNone([]) && Intended(cas, 0) == Some(Solved(None, []))
  {
    var cas := NothingSolves();
    PresentWithoutTags(PreferredOrder);
  }

  lemma {:induction false} PresentWithoutTags(order: seq<string>)
    ensures Present(order, []) == []
  {
    if order != [] {
      PresentWithoutTags(order[..|order| - 1]);
    }
  }

  /** Oracles under which the classifier reports nothing, dy/dx under y = v*x is free of x, no
      hint solves and only the substitution of the "homogeneous" fallback yields a solution. */
  function OnlyHomogeneousSolves(): Cas<int>
  {
    Cas(
      _ => Some([]), _ => Some(3), _ => Some(true), (_, _) => None, e => e, _ => Some(7),
      _ => None, _ => None, _ => None, (m, _) => m, (m, _) => m, 1, 2, _ => {},
      (e, _) => e, (mu, _, _) => mu, e => e)
  }

  /** Oracles under which no method, fallback or repair succeeds. */
  function NothingSolves(): Cas<int>
  {
    Cas(
      _ => Some([]), _ => None, _ => None, (_, _) => None, e => e, _ => None,
      _ => None, _ => None, _ => None, (m, _) => m, (m, _) => m, 1, 2, _ => {},
      (e, _) => e, (mu, _, _) => mu, e => e)
  }
}
