# Tableau simplex of opresearch, in Dafny

This project models the simplex core of `opresearch`. The core has three parts:

- the builder `problem_to_matrix`: it validates a linear program and lays it out as an initial tableau;
- the pivot engine in `opresearch/simplex.py`: Dantzig's column rule, the ratio test and an in-place Gauss-Jordan pivot;
- the driver loop of `opresearch/test.py`: it pivots until the column rule signals optimality, and records the basic variable of each row.

`build/lib/opresearch/lp.py:24-53` is a line-for-line copy of the builder, so `StandardForm` models both copies.

## Tableau

The tableau is a dense matrix of exact rationals:

- row 0 is the objective row and rows 1..m are the restrictions;
- columns 0..n-1 are the problem's variables and columns n..n+m-1 the slack variables;
- the last column holds the right-hand sides.

The model has two forms of it:

- `Tableau.Matrix` (`seq<seq<real>>`) is the value, used by the pure selectors and in the specifications;
- `array2<real>` is the mutable matrix that `move_pivot`, `do_step` and the loop update in place. `Tableau.Rows` reads such an array as a value.

## Modules

- `Tableau`: matrices, shape, and canonical form. In canonical form, column `basics[k]` is the unit vector of row k+1. `ArgMin` is Python's `min` over `enumerate`, which returns the first minimum.
- `Simplex`: the pivot engine.
  - `FindLeavingCol` and `FindEnteringRow` are functions.
  - `Pivoted` is the pivot as a value.
  - `MovePivot` (with `AddRowMultiple` and `DivideRow`) is the in-place pivot on `array2`, proved equal to `Pivoted`.
  - `SelectPivot` and `DoStep` model `do_step`.
  - Lemmas about the pivot:
    - it keeps the tableau canonical;
    - it changes the objective value by the stated amount;
    - it keeps feasibility when the selected row has the least ratio.
- `StandardForm`: the builder.
  - `Build` is the pure builder, with its validation order and exact layout.
  - `ProblemToMatrix`, `MakeShadow` and `Assemble` are the imperative builder, proved equal to `Build`. They cover the validation loop, the `shadow` identity with the diagonal negated in place, and the joins.
- `Driver`: the loop.
  - `Run`/`Iterate` is the loop as a function, bounded by `fuel`.
  - `Solve` is the loop on the array, proved equal to `Run`.
  - `SolveProblem` is the script end to end.
  - Lemmas over all runs:
    - canonical form is kept;
    - `Optimal` is reported only with a non-negative objective row;
    - an escaping error is the one the final tableau's selection raises.
- `Traces`: `Pass` states what one pass of the loop does. Lemmas chain passes into whole runs.
- `Scenarios`: concrete runs.
  - The script's own example is solved in two pivots, to the optimum 15.
  - A bounded problem stops at once, because its pivot column holds a zero.
  - An unbounded problem ends in `min` of an empty list.
  - Three malformed problems are rejected.
  - On one problem the ratio test picks a row of negative ratio, and the loop cycles without end.

## Behaviour reproduced from the code

The model follows what the code does, including where that differs from what a textbook simplex would do:

- **Ratio filter.** The ratio test keeps ratios `>= 0`, not only strictly positive ones.
- **No unboundedness signal.** When every ratio is negative, `min` of an empty list raises, which is `EmptyMin`.
- **Row index.** `find_entering_row` returns 1 + the position of the least ratio in the *filtered* list. This is a constraint row's index only when no ratio was dropped.
  - `FindEnteringRowPosition` states which row is returned: 1 + the number of non-negative ratios above the first row of least non-negative ratio.
  - `SelectPivotMisreadsFilteredRow` exhibits a feasible tableau whose selected row has ratio -1, while the true minimum-ratio row is row 2. The pivot leaves the tableau infeasible.
  - `CycleRun` shows the loop then never ends.
  - `FindEnteringRowExact` proves the returned row is the first row of least non-negative ratio exactly when no ratio above that row is negative. `PivotKeepsFeasible` proves the pivot then keeps feasibility.
- **Equality restrictions.** An `=` restriction is rejected with `InvalidRestType`; only `<=` and `>=` are accepted.
- **Zero pivot-column entry.** A zero entry in the pivot column makes the ratio test divide by zero. The model stops the step with `DivisionByZero` (see Left out).
- **Where the loop stops.** The loop catches only the column rule's `NoLeavingVarException`. Every other error ends the run as `Failed`.

## Model

| member | source | states |
|---|---|---|
| Tableau.ArgMin | opresearch/simplex.py:12-13 | the position returned is within the first n entries, holds a minimum of them, and every earlier entry is strictly larger (Python's `min` keeps the first minimum) |
| Simplex.FindLeavingCol | opresearch/simplex.py:11-18 | the chosen column is a non-rhs column with a negative row-0 entry, minimal over row 0 and the first such on ties; it signals `NoLeavingVar` exactly when row 0 has no negative non-rhs entry, and fails with `EmptyMin` exactly when there is no non-rhs column |
| Simplex.Ratios | opresearch/simplex.py:22 | one ratio per constraint row, entry q being `Ratio(t, q+1, j)`, rhs / pivot-column entry of row q+1 |
| Simplex.NonNegatives | opresearch/simplex.py:22 | the filtered list is no longer than its input and is the input itself when nothing is negative |
| Simplex.NonNegativesAppend | opresearch/simplex.py:22 | filtering a concatenation is concatenating the filtered parts, so survivors keep their input order |
| Simplex.NonNegativesPosition | opresearch/simplex.py:22 | a non-negative `s[k]` survives at the position equal to the number of survivors in `s[..k]`, behind exactly those survivors |
| Simplex.NonNegativesMembers | opresearch/simplex.py:22 | a value survives the filter exactly when it is in the input and is non-negative |
| Simplex.FindEnteringRow | opresearch/simplex.py:21-24 | fails (with `EmptyMin` only) exactly when every ratio is negative; otherwise returns a constraint-row number whose predecessor indexes the filtered list |
| Simplex.FindEnteringRowKeptMin | opresearch/simplex.py:22-24 | the returned number minus one indexes the least surviving ratio, the first one on ties, which is no larger than any non-negative ratio of any row |
| Simplex.FindEnteringRowPosition | opresearch/simplex.py:21-24 | when row k holds the least non-negative ratio, and is the first row that does, the returned number is 1 + the count of non-negative ratios in rows 1..k-1 |
| Simplex.FindEnteringRowExact | opresearch/simplex.py:21-24 | with row k the first row of least non-negative ratio, the returned row is k if and only if no ratio in rows 1..k-1 is negative |
| Simplex.NonNegativesKeepsAll | opresearch/simplex.py:22 | the filtered list is as long as its input if and only if no element is negative |
| Simplex.NonNegativesFirstMin | opresearch/simplex.py:22-24 | when `s[k]` is the first least non-negative element of `s`, the first minimum of the filtered list is at the number of non-negative elements of `s[..k]` |
| Simplex.NoFilterMinRatioRow | opresearch/simplex.py:21-24 | when no ratio is negative the returned row has the least ratio, and every lower row's ratio is strictly larger |
| Simplex.KeptRatios | opresearch/simplex.py:22 | every non-negative ratio of a constraint row survives the filter |
| Simplex.NoRatioKept | opresearch/simplex.py:22-23 | an empty filtered list means every ratio is negative |
| Simplex.SomeRatioKept | opresearch/simplex.py:22-23 | a non-empty filtered list means some row's ratio is non-negative |
| Simplex.AddMultipleAt | opresearch/simplex.py:35 | entry c of the row operation `AddMultiple(v, u, mul)` is `v[c] + mul * u[c]`, and it has the length of `v` |
| Simplex.DividedAt | opresearch/simplex.py:37 | entry c of the divided row `Divided(v, pivot)` is `v[c] / pivot`, and it has the length of `v` |
| Simplex.PivotedRowsAt | opresearch/simplex.py:29-37 | row r of the pivoted matrix is the pivot-row division for the pivot row and the elimination for every other row |
| Simplex.Pivoted | opresearch/simplex.py:27-37 | the pivot keeps the tableau rectangular with the same dimensions |
| Simplex.PivotedAt | opresearch/simplex.py:27-37 | entry (r, c) after the pivot is `t[i][c] / pivot` in the pivot row and `t[r][c] + (-t[r][j] / pivot) * t[i][c]` elsewhere, with the pivot read once before any row changes |
| Simplex.PivotedColumns | opresearch/simplex.py:27-37 | the pivot column becomes the unit vector of the pivot row, and every column whose pivot-row entry is 0 is unchanged |
| Simplex.EliminatedRowExact | opresearch/simplex.py:33-35 | a non-pivot row after the pivot equals any row that is the old row plus the pivot's multiplier times the pivot row |
| Simplex.DividedRowExact | opresearch/simplex.py:37 | the pivot row after the pivot equals any row that, times the pivot, gives the old pivot row |
| Simplex.AddRowMultiple | opresearch/simplex.py:35 | row r of the array becomes row r plus mul times row i; every other entry is unchanged |
| Simplex.DivideRow | opresearch/simplex.py:37 | row i of the array is divided by the pivot; every other entry is unchanged |
| Simplex.MovePivot | opresearch/simplex.py:27-37 | the array afterwards holds exactly `Pivoted` of its old contents |
| Simplex.SelectPivot | opresearch/simplex.py:40-42 | a selected (row, column) is a constraint row and a non-rhs column with a negative row-0 entry and no zero in that column; `NoLeavingVar` exactly when row 0 is non-negative |
| Simplex.SelectPivotSteps | opresearch/simplex.py:40-42 | the selection is the column rule followed by the ratio test: a selected pair is the column `FindLeavingCol` picks and the row `FindEnteringRow` returns for it; `DivisionByZero` exactly when the chosen column has a zero constraint entry; `EmptyMin` exactly when there is no non-rhs column or every ratio in the chosen column is negative |
| Simplex.DoStep | opresearch/simplex.py:40-44 | returns the selection made on the old contents; on success the array holds the pivoted tableau, on failure it is unchanged |
| Simplex.PivotKeepsCanonical | opresearch/simplex.py:27-37 | a pivot on a non-rhs column keeps canonical form, with column j the new basic variable of row i |
| Simplex.PivotObjectiveRhs | opresearch/simplex.py:27-37 | the objective value moves by `-t[0][j]` times the pivot row's ratio, so it never decreases for a negative entering entry and a non-negative ratio |
| Simplex.PivotKeepsFeasible | opresearch/simplex.py:21-44 | when no ratio above the first row k of least non-negative ratio is negative, the selected row is k and the pivot keeps a feasible tableau feasible |
| Simplex.MinRatioKeepsFeasible | opresearch/simplex.py:27-37 | pivoting on a row whose ratio is non-negative and no larger than any other non-negative ratio keeps every rhs non-negative, whatever the negative ratios are |
| Simplex.PivotedRhs | opresearch/simplex.py:33-37 | a constraint row whose ratio is negative, or at least the pivot row's non-negative ratio, keeps a non-negative rhs |
| Simplex.RhsStaysNonNegative | opresearch/simplex.py:33-35 | the elimination keeps a non-negative rhs when the row's ratio is at least the pivot row's |
| Simplex.NegativeRatioRhsStaysNonNegative | opresearch/simplex.py:33-35 | the elimination keeps a non-negative rhs when the row's ratio is negative and the pivot row's is not |
| StandardForm.Build | opresearch/test.py:25-54 | errors come in the source's order: `InvalidProblemType` exactly for an unknown sense, then `ProblemVarsMismatch` exactly for a restriction of the wrong width, then `InvalidRestType` exactly for an unknown relation; otherwise it gives the exact tableau layout (the objective row `SignedObjective`, negated for `max`, then zeros, coefficients, ±1 slack diagonal, rhs) and basics n..n+m-1 |
| StandardForm.StartCanonicalIffAllLeq | opresearch/test.py:42-53 | the initial tableau is canonical for its basics exactly when every restriction is `<=` |
| StandardForm.ProblemToMatrix | opresearch/test.py:25-54 | the imperative builder fails with the error `Build` gives, or returns a fresh array holding `Build`'s tableau and its basics |
| StandardForm.MakeShadow | opresearch/test.py:42-48 | fails with `InvalidRestType` exactly when some relation is unknown; otherwise returns the identity with the `>=` rows' diagonal negated |
| StandardForm.Assemble | opresearch/test.py:50-54 | the fresh array holds exactly `Build`'s tableau |
| Driver.Run | opresearch/test.py:63-73 | the loop keeps the tableau's dimensions and the basics' length, and never reports the optimality signal as a failure |
| Driver.Iterate | opresearch/test.py:64-73 | the same for one pass followed by the rest of the loop |
| Driver.RunKeepsCanonical | opresearch/test.py:63-73 | canonical form holds after any number of passes |
| Driver.RunOptimalCertificate | opresearch/test.py:63-69 | `Optimal` is reported only when the final objective row has no negative non-rhs entry |
| Driver.OptimalEndsNonNegative | opresearch/test.py:63-69 | whatever final state the loop reaches from here, `Optimal` comes only with a non-negative objective row |
| Driver.RunFailureIsSelection | opresearch/test.py:63-72 | an error that ends the loop is what the selection raises on the final tableau |
| Driver.FailureEndsOnSelection | opresearch/test.py:63-72 | whatever final state the loop reaches from here, an escaping error is what the selection raises on its tableau |
| Driver.RunStops | opresearch/test.py:64-71 | a pass whose selection fails ends the loop on the tableau and basics it was given |
| Driver.RunPivots | opresearch/test.py:71-73 | a pass that selects (i, j) continues with the pivoted tableau and basics[i-1] set to j |
| Driver.Solve | opresearch/test.py:63-73 | the loop on the array ends with the outcome, contents and basics that `Run` gives for the old contents |
| Driver.StopEndsLoop | opresearch/test.py:64-71 | a failed selection fixes the loop's final state |
| Driver.PivotContinuesLoop | opresearch/test.py:71-73 | the loop's final state is reached from the pivoted tableau and updated basics |
| Driver.SolveProblem | opresearch/test.py:59-73 | the script fails with the builder's error, or ends in the state `Run` gives from the built tableau |
| Traces.PassRun | opresearch/test.py:71-73 | one pass hands the pivoted tableau and updated basics to the rest of the loop |
| Traces.RunFailsAtOnce | opresearch/test.py:64-71 | a selection error other than the optimality signal ends the run on the first pass with the input unchanged |
| Traces.RunPassThenFails | opresearch/test.py:63-73 | one pivot, then a failing selection: the run fails with that error on the pivoted tableau |
| Traces.RunPassThenOptimal | opresearch/test.py:63-73 | one pivot, then the optimality signal: the run is optimal on the pivoted tableau |
| Traces.RunTwoPassesThenOptimal | opresearch/test.py:63-73 | two pivots, then the optimality signal: the run is optimal on the twice-pivoted tableau |
| Traces.RunCycles | opresearch/test.py:63-73 | two passes that return to the starting tableau and basics make every bounded run run out of passes |
| Scenarios.ExampleBuild | opresearch/test.py:18-54 | the script's problem builds to the all-slack tableau with basics 3, 4, 5 |
| Scenarios.ExampleFirstSelection | opresearch/simplex.py:11-24 | first pass: column 0 enters, and row 2 (ratio 2 against 5 and 20/7) is selected |
| Scenarios.FirstPivotRow0 | opresearch/simplex.py:33-35 | row 0 after the first pivot |
| Scenarios.FirstPivotRow1 | opresearch/simplex.py:33-35 | row 1 after the first pivot |
| Scenarios.FirstPivotRow2 | opresearch/simplex.py:37 | the pivot row after the first pivot |
| Scenarios.FirstPivotRow3 | opresearch/simplex.py:33-35 | row 3 after the first pivot |
| Scenarios.ExampleFirstPivot | opresearch/simplex.py:27-37 | the whole tableau after the first pivot |
| Scenarios.ExampleSecondSelection | opresearch/simplex.py:11-24 | second pass: column 2 enters; ratio -2 is filtered out and the first of the two ratios 3 (row 1) is selected |
| Scenarios.SecondPivotRow0 | opresearch/simplex.py:33-35 | row 0 after the second pivot |
| Scenarios.SecondPivotRow1 | opresearch/simplex.py:37 | the pivot row after the second pivot |
| Scenarios.SecondPivotRow2 | opresearch/simplex.py:33-35 | row 2 after the second pivot |
| Scenarios.SecondPivotRow3 | opresearch/simplex.py:33-35 | row 3 after the second pivot |
| Scenarios.ExampleSecondPivot | opresearch/simplex.py:27-37 | the whole tableau after the second pivot |
| Scenarios.ExampleFinalSelection | opresearch/simplex.py:11-18 | third pass: row 0 is non-negative and the optimality signal is raised |
| Scenarios.ExampleFirstPass | opresearch/test.py:71-73 | the first pass of the loop, with basics 3, 4, 5 becoming 3, 0, 5 |
| Scenarios.ExampleSecondPass | opresearch/test.py:71-73 | the second pass, with basics becoming 2, 0, 5 |
| Scenarios.ExampleRun | opresearch/test.py:59-73 | with at least three passes allowed, the script's loop ends optimal at objective value 15 with basics 2, 0, 5 |
| Scenarios.ZeroEntrySelection | opresearch/simplex.py:21-22 | a bounded problem whose pivot column holds a zero makes the ratio test divide by zero |
| Scenarios.ZeroEntryRun | opresearch/test.py:63-73 | the loop fails with `DivisionByZero` on its first pass |
| Scenarios.UnboundedFirstSelection | opresearch/simplex.py:11-24 | the unbounded problem's first pass selects row 1, column 0 |
| Scenarios.UnboundedFirstPivot | opresearch/simplex.py:27-37 | the tableau after that pivot |
| Scenarios.UnboundedFirstPass | opresearch/test.py:71-73 | the first pass, with basics 2 becoming 0 |
| Scenarios.UnboundedSecondSelection | opresearch/simplex.py:21-23 | the second selection's only ratio is negative, so `min` gets an empty list |
| Scenarios.UnboundedRun | opresearch/test.py:63-73 | the loop ends failed with `EmptyMin`: no unboundedness signal is raised |
| Scenarios.UnknownSenseRejected | opresearch/test.py:29-32 | a sense other than "max"/"min" is rejected before anything else is checked |
| Scenarios.WidthMismatchRejected | opresearch/test.py:36-38 | a short coefficient list is rejected before the relations are read |
| Scenarios.EqualityRejected | opresearch/test.py:44-48 | an `=` restriction is rejected |
| Scenarios.CycleBuild | opresearch/test.py:25-54 | the cycling problem builds to its all-slack tableau with basics 1, 2 |
| Scenarios.CycleFirstSelection | opresearch/simplex.py:21-24 | row 1 (ratio -1) is selected although row 2 (ratio 5) is the only non-negative one |
| Scenarios.SelectPivotMisreadsFilteredRow | opresearch/simplex.py:21-24 | that selection turns a feasible tableau into an infeasible one |
| Scenarios.CycleSecondSelection | opresearch/simplex.py:11-24 | the next pass selects row 1, column 1 |
| Scenarios.CycleFirstPivot | opresearch/simplex.py:27-37 | the tableau after the first pivot |
| Scenarios.CycleSecondPivot | opresearch/simplex.py:27-37 | the second pivot restores the starting tableau |
| Scenarios.CycleFirstPass | opresearch/test.py:71-73 | the first pass, with basics 1, 2 becoming 0, 2 |
| Scenarios.CycleSecondPass | opresearch/test.py:71-73 | the second pass, with basics restored to 1, 2 |
| Scenarios.CycleRun | opresearch/test.py:63-73 | every bounded run of the loop on this problem runs out of passes: the optimum 5 is never reached |

## Left out

- `print_tableu` (`opresearch/simplex.py:47-72`) and the script's prints: they only produce output.
- `projection_y` (`opresearch/simplex.py:7-8`): the module defines it but never uses it.
- `opresearch/parser.py`: the problem parser is not part of this model. Problems are given as `StandardForm.Problem` values.
- Driver.Run: the loop in the source has no bound and does not terminate on every input (`CycleRun`). The model bounds it with `fuel` and reports `OutOfFuel` when that bound is used up.
- Simplex.SelectPivot: a zero entry in the pivot column does not reach the ratio test. The source computes `y / x` with sympy, which gives a non-real result (`zoo` or `nan`) that the `>= 0` comparison then rejects with an exception. The model stops at once with `DivisionByZero` instead of modelling sympy's special values.
- Simplex.FindEnteringRow: it requires a column with no zero entry; `SelectPivot` handles the zero case before calling it.
- Numbers are exact rationals (`real`). sympy keeps integer input exact, which this matches. Floating-point input is not modelled.
- The problem dictionaries (`obj`, `rests`, `type`, `coefs`, `rhs`) are datatypes. A missing key, and so Python's `KeyError`, cannot occur.
- StandardForm.Build: sympy's handling of degenerate shapes is not modelled. With no restrictions, the source stacks a 1×(n+1) objective row on a 0×0 matrix at opresearch/test.py:54; sympy 1.x probably raises `ShapeError` there, while `Build` returns `Ok` with a one-row tableau and no basics. An empty objective list is left to sympy's conventions in the same way.
- Reading off the primal solution from the final tableau and basics: the source never does this.
