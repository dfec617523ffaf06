# ODE Calculator — a Dafny model of the input rewrite, the solver adapter and the window logic

The ODE Calculator is a small desktop program. The user types an ordinary differential
equation such as `y'' + y = 0` or `dy/dx = x*y`. The window rewrites the line into a SymPy
expression and evaluates it. It then asks the solver adapter `solving_ode` for a solution and
for the readable names of every method that applies. It shows the equation and the solution,
and it switches on the indicator button of each applicable method.

This project models that core in four Dafny modules:

- `Wrappers` (`wrappers.dfy`): `Option` and `Result`.
- `InputRewrite` (`input_rewrite.dfy`): the pure text rewrites `on_enter` applies before
  evaluating a line. These are `str.strip`, `replace_quoted_derivatives` (the prime notation
  `y'`, `y′′`, …), `replace_equal_sign` (`lhs = rhs` becomes `Eq(lhs, rhs)`) and the
  `dx`/`dy` shorthand expansion. They are written out over `seq<char>`, including Python's
  `str.find` returning -1 and Python's slice clamping.
- `CalculateOde` (`calculate_ode.dfy`): `solving_ode`. Every SymPy call (`classify_ode`,
  `solve`, `dsolve`, `simplify`, `free_symbols`, `integrate`, …) is an uninterpreted function
  in the record `Cas<E>` over an abstract expression type `E`. A call the code guards with a
  `try`, and the classifier, return an `Option`, and a call that raises is `None`. The other
  fields are total functions (see Left out).
  - A failing call inside a `try` is caught, as in the code.
  - `classify_ode` is called outside any `try`. When it raises (no derivative of y(x) in the
    equation, as for `y = x`), the exception leaves `solving_ode` and then `on_enter`.
  - The preference order, the hint-to-label table, the walk and the homogeneous-substitution
    fallback follow the code branch for branch. The walk labels every present method but
    attempts methods only until one succeeds.
  - The homogeneity augmentation is modelled as the code intends. As written, it never adds
    anything (see Findings).
  - `non_exact` compares free-symbol sets with `{x}` and with `{y}`, where `y` is the applied
    function y(x). A free-symbol set never holds y(x), so the y-only factor is never found
    (`OnlyXFactor`). A ratio in y(x) alone has the free symbol x and passes the x test.
- `Setup` (`setup.dfy`): the window class `ODESolverApp` as the class `OdeSolverApp<E>`.
  - The constructor creates the eight method buttons, all disabled, and registers them in a
    key → button table. As in a Python dict, a repeated key keeps its first position and takes
    the later button.
  - `_enable_buttons` walks the table.
  - `on_enter` rewrites, evaluates (an oracle `parse`), previews (an oracle `renders` for
    whether the equation typesets), solves, and updates the panels and buttons. When the
    classifier raises, the handler ends after the preview and nothing else changes.

The button table is proved to hold seven keys, not eight: "homogeneous" is registered twice.
The "Homogeneous" button therefore sits in the layout but can never be switched on.

## Model

| member | source | states |
|---|---|---|
| InputRewrite.Strip | ODE_Calculator/Setup.py:90 | the result is an infix of the line, everything cut off on either side is whitespace, and the result neither starts nor ends with whitespace |
| InputRewrite.DecimalRoundTrip | ODE_Calculator/Setup.py:158-159 | the prime count written into `y.diff(x, k)` reads back as k |
| InputRewrite.QuoteRun | ODE_Calculator/Setup.py:155 | the greedy `['′]+` run: every counted character is a quote, and the next one is not |
| InputRewrite.GreedyPrimes | ODE_Calculator/Setup.py:154-161 | `y` followed by a maximal run of k ≥ 1 quote marks becomes exactly one call `y.diff(x, k)`, not k first derivatives |
| InputRewrite.NoPrimesUnchanged | ODE_Calculator/Setup.py:154-161 | a line without prime notation is returned unchanged |
| InputRewrite.NoPrimesRemain | ODE_Calculator/Setup.py:154-161 | after the rewrite no `y'` or `y′` is left anywhere |
| InputRewrite.PrimeRewriteIdempotent | ODE_Calculator/Setup.py:154-161 | rewriting twice gives the same text as rewriting once |
| InputRewrite.Find | ODE_Calculator/Setup.py:164 | `str.find`: -1 iff the character is absent, otherwise the index of its first occurrence |
| InputRewrite.SliceBound | ODE_Calculator/Setup.py:165 | Python's slice-bound clamping: in-range bounds are kept, a negative bound counts from the end, a bound past either end is clamped to that end (so `""[:-1]` is empty) |
| InputRewrite.ReplaceEqualSign | ODE_Calculator/Setup.py:163-165 | the result is always an `Eq(`…`)` call |
| InputRewrite.EqualSignSplits | ODE_Calculator/Setup.py:163-165 | with a first `=` at i, the left argument is everything before i and the right is everything after it, later `=` included |
| InputRewrite.NoEqualSign | ODE_Calculator/Setup.py:163-165 | without `=`, `find` gives -1: the left argument is the line minus its last character and the right is the whole line (`Eq(, )` for an empty line) |
| InputRewrite.EqualSignKeepsNoPair | ODE_Calculator/Setup.py:163-165 | the wrapper creates no new adjacent pair of line characters |
| InputRewrite.ReplaceAllPrefix | ODE_Calculator/Setup.py:93 | `str.replace` copies unchanged a prefix none of whose characters can start the pattern |
| InputRewrite.ReplaceAllNoPair | ODE_Calculator/Setup.py:93 | after `str.replace(ab, rep)` no `ab` is left, and a pair absent before stays absent when `rep` cannot form it |
| InputRewrite.ShorthandRemoved | ODE_Calculator/Setup.py:93 | after the two replacements no `dx` and no `dy` is left |
| InputRewrite.ShorthandKeepsNoPrimes | ODE_Calculator/Setup.py:93 | the shorthand expansion never creates prime notation |
| InputRewrite.PreprocessShape | ODE_Calculator/Setup.py:90-93 | the evaluator always receives an `Eq(`…`)` call with no `dx`, no `dy` and no prime notation in it |
| Setup.KeyTableKeys | ODE_Calculator/Setup.py:75-79 | a key is registered iff some button entry carries it |
| Setup.KeyTableLastWins | ODE_Calculator/Setup.py:75-79 | a registered key holds the label of the last entry carrying it |
| Setup.MethodTableShape | ODE_Calculator/Setup.py:65-79 | the table is the seven-key map with "homogeneous" → "n-th Homog", and no key holds "Homogeneous" |
| Setup.HomogeneousOrphaned | ODE_Calculator/Setup.py:65-79 | the second button's key is registered, but its label survives under no key |
| Setup.KeyList | ODE_Calculator/Setup.py:75-79 | the key list holds each key at most once |
| Setup.KeyListKeys | ODE_Calculator/Setup.py:75-79 | the key list holds exactly the keys of the table |
| Setup.KeyListOrder | ODE_Calculator/Setup.py:75-79 | of two keys in the list, the earlier was inserted first: every entry carrying the later key comes after an entry carrying the earlier one |
| Setup.MethodKeyList | ODE_Calculator/Setup.py:65-79 | the buttons' keys in dict order are the seven keys, with "homogeneous" in second place |
| Setup.CreateButtons | ODE_Calculator/Setup.py:75-79 | one new disabled button per entry, in layout order, with the entry's label; every key holds the very button of the last entry carrying it; the key list is the entries' keys once each in first-insertion order; distinct keys hold distinct buttons |
| Setup.OdeSolverApp.constructor | ODE_Calculator/Setup.py:61-87 | all eight buttons are created disabled with their labels; the table's keys and labels are those of the key table, each key holding its last entry's button, walked in first-insertion order; the "Homogeneous" button is not in the table; the panels are blank and there is no equation yet |
| Setup.OdeSolverApp.EnableButtons | ODE_Calculator/Setup.py:120-122 | each registered button is on iff its key is among the given keys, and a layout button outside the table is untouched |
| Setup.OdeSolverApp.OnEnter | ODE_Calculator/Setup.py:89-118 | on a parse failure, both panels show the error and every button is off; otherwise the input panel shows the equation (or the rewritten text when it does not typeset); when the classifier raises, the exception escapes and the buttons, the solution panel and the remembered equation are unchanged; otherwise the solution panel shows the intended solution or "Could not solve.", exactly the buttons of the returned labels are on, and the equation is remembered |
| Setup.OdeSolverApp.Evaluated | ODE_Calculator/Setup.py:102-118 | after a successful evaluation: the preview is shown; the handler escapes exactly when the classifier raises, leaving buttons, solution panel and remembered equation unchanged; otherwise the intended solution and labels are shown and the equation is remembered |
| Setup.OdeSolverApp.ShowParseFailure | ODE_Calculator/Setup.py:96-100 | both messages are shown and every button of the layout is disabled |
| Setup.OdeSolverApp.ShowPreview | ODE_Calculator/Setup.py:102-107 | the input panel shows the equation, or the rewritten text when typesetting fails; nothing else changes |
| Setup.OdeSolverApp.ShowSolution | ODE_Calculator/Setup.py:110-118 | the switched-on keys are exactly the given labels that are registered, the solution panel shows the solution or "Could not solve.", and the equation is remembered |
| CalculateOde.Augmented | ODE_Calculator/CalculateODE.py:51-62 | the tags are the classifier's, plus "homogeneous" exactly when it was missing and dy/dx under y = v·x is free of x; a failing test adds nothing |
| CalculateOde.AugmentationLost | ODE_Calculator/CalculateODE.py:52-62 | whenever the homogeneity test passes, the intended augmentation holds "homogeneous" and the code as written does not |
| CalculateOde.FallbackDependsOnlyOnDerivative | ODE_Calculator/CalculateODE.py:32-49 | the substitution fallback sees the equation only through dy/dx: equations with the same dy/dx get the same result |
| CalculateOde.Attempt | ODE_Calculator/CalculateODE.py:98-102 | a successful `dsolve` wins; a failed "homogeneous" attempt takes the result of the substitution fallback, and no other method has a fallback |
| CalculateOde.NonExact | ODE_Calculator/CalculateODE.py:8-30 | a repaired equation is always tagged "1st_exact" |
| CalculateOde.NonExactBranches | ODE_Calculator/CalculateODE.py:8-30 | a repair exists iff the right side is 0, both coefficients exist, and either the first ratio's free symbols are `{x}` or the second's are `{y(x)}`; the x factor is tried first |
| CalculateOde.OnlyXFactor | ODE_Calculator/CalculateODE.py:19-27 | since free symbols never include the applied function y(x), every repair uses the factor in x |
| CalculateOde.PreferenceWalk | ODE_Calculator/CalculateODE.py:91-102 | the loop produces the labels of all present methods in preference order, and the first successful attempt |
| CalculateOde.SolvingOde | ODE_Calculator/CalculateODE.py:7-113 | the method's result equals the intended result of the whole run: the classifier's exception, or the walk, then the repair, then the display of y |
| CalculateOde.PresentMembers | ODE_Calculator/CalculateODE.py:94-95 | a method is present iff the preference order lists it and the tags hold it |
| CalculateOde.PresentIgnoresTagOrder | ODE_Calculator/CalculateODE.py:94-95 | the classifier's order and repetitions never show in the result |
| CalculateOde.Rank | ODE_Calculator/CalculateODE.py:78-89 | the position of a method is where it first occurs in the preference order |
| CalculateOde.PresentFollowsOrder | ODE_Calculator/CalculateODE.py:94-96 | the present methods come strictly in preference order |
| CalculateOde.PresentKeepsOrder | ODE_Calculator/CalculateODE.py:94-96 | two tagged methods are both present, the preferred one first |
| CalculateOde.LinearBeforeSeparable | ODE_Calculator/CalculateODE.py:78-96 | for an equation tagged both linear and separable, "linear" is reported before "separable" |
| CalculateOde.HomogeneousLabelTwice | ODE_Calculator/CalculateODE.py:64-96 | labels can repeat: an equation tagged with both homogeneous hints reports "homogeneous" twice |
| CalculateOde.LabelOrigins | ODE_Calculator/CalculateODE.py:64-89 | among the preferred methods, "linear", "separable" and "exact" each come from exactly one hint |
| CalculateOde.UnlistedTagAddsNothing | ODE_Calculator/CalculateODE.py:64-96 | a tag outside the preference order, such as "separable_parallel", adds no label |
| CalculateOde.FirstSuccessIsFirst | ODE_Calculator/CalculateODE.py:97-102 | the kept solution is the attempt of the first present method that succeeds, and there is none iff every attempt fails |
| CalculateOde.SearchLabels | ODE_Calculator/CalculateODE.py:94-107 | labels are given for all present methods even after a success; the raw tag "1st_exact" is appended iff the walk failed and the repair applies |
| CalculateOde.ExactLabelOnlyFromTags | ODE_Calculator/CalculateODE.py:64-107 | the label "exact" appears iff the tags held "1st_exact", so a repaired equation never lights the Exact button |
| CalculateOde.SearchSolution | ODE_Calculator/CalculateODE.py:97-109 | the solution comes from the walk, and only when the walk failed from solving the repaired equation |
| CalculateOde.AsWrittenRaisesIffUnsolved | ODE_Calculator/CalculateODE.py:52-113 | as written, the function raises in the classifier exactly when the intended result is the classifier's exception; it raises at the last line exactly when the walk over the classifier's own (never augmented) tags and the repair find nothing; and when the augmentation would not fire, it raises exactly where `(None, labels)` is intended and otherwise returns the intended result |
| CalculateOde.LostHomogeneousRaises | ODE_Calculator/CalculateODE.py:52-113 | for an equation that only the homogeneous fallback solves and that the classifier does not tag "homogeneous", the code as written raises at the last line with no labels, while the intended run returns the fallback's solution labelled "homogeneous" |
| CalculateOde.UnsolvableEquationRaises | ODE_Calculator/CalculateODE.py:104-113 | for an equation nothing classifies or solves, the function raises where `(None, [])` is intended |

## Left out

- Qt widgets, layout boxes, matplotlib canvases, fonts and drawing. A panel records only what
  it was last told to show.
- `eval` over the safe name table: modelled by the oracle `parse`. Its error text is the
  oracle's message.
- `latex`: whether the equation typesets is the oracle `renders`. Typesetting of the
  solution is not modelled.
- All of SymPy: each call is an uninterpreted field of `Cas<E>`. For the `Option` fields a
  call that raises is `None`. That free symbols never include y(x) is a hypothesis (`SymbolsOnly`) of
  `OnlyXFactor`, not a property of every `Cas`.
- Setup.OdeSolverApp.Evaluated: calls the corrected `solving_ode`, as `OnEnter` does (next line).
- Setup.OdeSolverApp.OnEnter: uses the corrected `solving_ode` and the intended augmentation
  (see Findings), through Setup.OdeSolverApp.Evaluated. So when nothing solves it shows "Could not solve." As written, the call
  raises instead, and the window never reaches the check at Setup.py:113.
- CalculateOde.NonExact: exceptions raised inside `non_exact` are not modelled: `coeffDx`,
  `coeffDy`, `xRatio`, `yRatio`, `freeSymbols`, `integratingFactor` and `exactForm` are total.
  `non_exact` is called outside any `try`, so such an exception would leave `solving_ode` like
  the classifier's.
- CalculateOde.Cas: the fields `showY` (the `.subs` at CalculateODE.py:113),
  `homogeneousSubstitution` (the `.subs` at CalculateODE.py:43, outside both `try` blocks of
  `solve_homogeneous`), `xRatio`, `yRatio`, `integratingFactor`, `exactForm` and
  `freeSymbols` are total functions, so the model assumes these calls never raise.
- CalculateOde.Cas: `coeffDx` and `coeffDy` return an `Option` only so that the test
  `M is None or N is None` (CalculateODE.py:16) has something to test. SymPy's `coeff` returns
  0 for an absent term, never `None`, so that branch is dead in the code; in the model it is
  reached only by a `Cas` that returns `None` there.
- The message printed when the repaired equation fails to solve (CalculateODE.py:111). The
  solution stays `None`, which is modelled.
- The input-field widget and the enter key binding. `OnEnter` takes the typed line as a
  parameter.
- The regular expression engine: the pattern `y(['′]+)` is written out as a left-to-right
  scan with a greedy quote run.
- A missing `=` is not a parse error. The code builds `Eq(s[:-1], s)` (`NoEqualSign`), and
  the model follows the code.

## Findings

| source | as written | input that shows it | evidently intended | confidence | as-written member | corrected member |
|---|---|---|---|---|---|---|
| ODE_Calculator/CalculateODE.py:60 | `classify_ode` returns a tuple, so `classifying.append('homogeneous')` raises `AttributeError`. The surrounding `except Exception: pass` swallows it, and the tags are never extended. | `y' = (x + y)/x`: dy/dx = 1 + y/x becomes 1 + v under y = v·x, which is free of x, so the code reaches the `append` (`AugmentationLost`); when only the homogeneous fallback solves, the lost tag makes the run raise (`LostHomogeneousRaises`) | append "homogeneous" to a list copy of the tags, so the homogeneous method is labelled and tried | not executed | CalculateOde.AugmentedAsWritten | CalculateOde.Augmented |
| ODE_Calculator/CalculateODE.py:113 | `solution.subs(y, 'y')` is called even when no method, fallback or repair produced a solution, so the function raises on `None`. The caller's `if sol is None` branch (Setup.py:113-114) is therefore unreachable. | an equation whose classifier tags are empty and for which every solver call fails (`UnsolvableEquationRaises`); `SolvingOdeAsWritten` walks the tags without the augmentation, as the code does |  return `(None, readable_classes)` so the window shows "Could not solve." | not executed | CalculateOde.SolvingOdeAsWritten | CalculateOde.SolvingOde |
