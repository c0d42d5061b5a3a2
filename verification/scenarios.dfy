/**
 * Worked runs of the model on small problems: the driver script's own
 * example, a bounded problem whose pivot column holds a zero, an unbounded
 * problem, malformed problems, and a problem on which the ratio test picks a
 * row of negative ratio and the loop never ends.
 *
 * Each concrete fact (one selection, one pivoted row) is proved in a lemma of
 * its own; the runs are put together by the generic run lemmas of `Traces`,
 * whose hypotheses the concrete facts match exactly.
 */
module Scenarios {
  import opened Wrappers
  import opened Tableau
  import opened Simplex
  import opened StandardForm
  import opened Driver
  import opened Traces

  // ---------------------------------------------------------------------
  // The driver script's problem: maximise 3x1 + x2 under three "<=" rows.
  // ---------------------------------------------------------------------

  function ExampleProblem(): Problem {
    Problem(Objective("max", [3.0, 1.0, 0.0]),
            [Restriction("<=", [1.0, 2.0, 0.0], 5.0),
             Restriction("<=", [1.0, 1.0, -1.0], 2.0),
             Restriction("<=", [7.0, 3.0, -5.0], 20.0)])
  }

  function ExampleStart(): Matrix {
    [[-3.0, -1.0, 0.0, 0.0, 0.0, 0.0, 0.0],
     [1.0, 2.0, 0.0, 1.0, 0.0, 0.0, 5.0],
     [1.0, 1.0, -1.0, 0.0, 1.0, 0.0, 2.0],
     [7.0, 3.0, -5.0, 0.0, 0.0, 1.0, 20.0]]
  }

  function ExampleSecond(): Matrix {
    [[0.0, 2.0, -3.0, 0.0, 3.0, 0.0, 6.0],
     [0.0, 1.0, 1.0, 1.0, -1.0, 0.0, 3.0],
     [1.0, 1.0, -1.0, 0.0, 1.0, 0.0, 2.0],
     [0.0, -4.0, 2.0, 0.0, -7.0, 1.0, 6.0]]
  }

  function ExampleFinal(): Matrix {
    [[0.0, 5.0, 0.0, 3.0, 0.0, 0.0, 15.0],
     [0.0, 1.0, 1.0, 1.0, -1.0, 0.0, 3.0],
     [1.0, 2.0, 0.0, 1.0, 0.0, 0.0, 5.0],
     [0.0, -6.0, 0.0, -2.0, -5.0, 1.0, 0.0]]
  }

  /** The builder turns the example into the all-slack tableau with basics x4, x5, x6 (0-based 3, 4, 5). */
  lemma ExampleBuild()
    ensures Build(ExampleProblem()) == Ok(Start(ExampleStart(), [3, 4, 5]))
  {
    var b := Build(ExampleProblem());
    assert b.Ok?;
    var t := b.value.tableau;
    assert |t| == 4 && Width(t) == 7;
    forall q, c | 0 <= q < 4 && 0 <= c < 7
      ensures t[q][c] == ExampleStart()[q][c]
    {
    }
    assert forall q | 0 <= q < 4 :: t[q] == ExampleStart()[q];
    assert t == ExampleStart();
    assert b.value.basics == [3, 4, 5];
    assert b.value == Start(ExampleStart(), [3, 4, 5]);
  }

  /** First pass: x1 has the most negative cost; row 2 has the least ratio (2 against 5 and 20/7). */
  lemma ExampleFirstSelection()
    ensures SelectPivot(ExampleStart()) == Ok((2, 0))
  {
    var t := ExampleStart();
    assert FindLeavingCol(t) == Ok(0);
    assert Ratios(t, 0) == [5.0, 2.0, 20.0 / 7.0];
  }

  /** The first pivot: row 2 is the pivot row, x1 the pivot column. */
  lemma ExampleFirstPivot()
    ensures Pivoted(ExampleStart(), 2, 0) == ExampleSecond()
  {
    forall r | 0 <= r < 4
      ensures Pivoted(ExampleStart(), 2, 0)[r] == ExampleSecond()[r]
    {
      if r == 0 { FirstPivotRow0(); }
      else if r == 1 { FirstPivotRow1(); }
      else if r == 2 { FirstPivotRow2(); }
      else { FirstPivotRow3(); }
    }
  }

  lemma FirstPivotRow0()
    ensures Pivoted(ExampleStart(), 2, 0)[0] == ExampleSecond()[0]
  {
    EliminatedRowExact(ExampleStart(), 2, 0, 0, 3.0, ExampleSecond()[0]);
  }

  lemma FirstPivotRow1()
    ensures Pivoted(ExampleStart(), 2, 0)[1] == ExampleSecond()[1]
  {
    EliminatedRowExact(ExampleStart(), 2, 0, 1, -1.0, ExampleSecond()[1]);
  }

  lemma FirstPivotRow2()
    ensures Pivoted(ExampleStart(), 2, 0)[2] == ExampleSecond()[2]
  {
    DividedRowExact(ExampleStart(), 2, 0, ExampleSecond()[2]);
  }

  lemma FirstPivotRow3()
    ensures Pivoted(ExampleStart(), 2, 0)[3] == ExampleSecond()[3]
  {
    EliminatedRowExact(ExampleStart(), 2, 0, 3, -7.0, ExampleSecond()[3]);
  }

  /**
   * Second pass: x3 enters; row 2's ratio -2 is filtered out, and the first
   * of the two ratios 3 belongs to row 1.
   */
  lemma ExampleSecondSelection()
    ensures SelectPivot(ExampleSecond()) == Ok((1, 2))
  {
    var t := ExampleSecond();
    assert FindLeavingCol(t) == Ok(2);
    assert Ratios(t, 2) == [3.0, -2.0, 3.0];
  }

  /** The second pivot: row 1 is the pivot row, x3 the pivot column. */
  lemma ExampleSecondPivot()
    ensures Pivoted(ExampleSecond(), 1, 2) == ExampleFinal()
  {
    forall r | 0 <= r < 4
      ensures Pivoted(ExampleSecond(), 1, 2)[r] == ExampleFinal()[r]
    {
      if r == 0 { SecondPivotRow0(); }
      else if r == 1 { SecondPivotRow1(); }
      else if r == 2 { SecondPivotRow2(); }
      else { SecondPivotRow3(); }
    }
  }

  lemma SecondPivotRow0()
    ensures Pivoted(ExampleSecond(), 1, 2)[0] == ExampleFinal()[0]
  {
    EliminatedRowExact(ExampleSecond(), 1, 2, 0, 3.0, ExampleFinal()[0]);
  }

  lemma SecondPivotRow1()
    ensures Pivoted(ExampleSecond(), 1, 2)[1] == ExampleFinal()[1]
  {
    DividedRowExact(ExampleSecond(), 1, 2, ExampleFinal()[1]);
  }

  lemma SecondPivotRow2()
    ensures Pivoted(ExampleSecond(), 1, 2)[2] == ExampleFinal()[2]
  {
    EliminatedRowExact(ExampleSecond(), 1, 2, 2, 1.0, ExampleFinal()[2]);
  }

  lemma SecondPivotRow3()
    ensures Pivoted(ExampleSecond(), 1, 2)[3] == ExampleFinal()[3]
  {
    EliminatedRowExact(ExampleSecond(), 1, 2, 3, -2.0, ExampleFinal()[3]);
  }

  /** Third pass: row 0 has no negative entry left; the column rule signals the optimum. */
  lemma ExampleFinalSelection()
    ensures SelectPivot(ExampleFinal()) == Err(NoLeavingVar)
  {
  }

  lemma ExampleShapes()
    ensures Rect(ExampleStart()) && |ExampleStart()| == 4 && [3, 4, 5][2 - 1 := 0] == [3, 0, 5]
    ensures Rect(ExampleSecond()) && |ExampleSecond()| == 4 && [3, 0, 5][1 - 1 := 2] == [2, 0, 5]
  {
  }

  /** The first pass: x1 replaces x5 (0-based 4) as row 2's basic variable. */
  lemma ExampleFirstPass()
    ensures Pass(ExampleStart(), [3, 4, 5], 2, 0, ExampleSecond(), [3, 0, 5])
  {
    ExampleShapes();
    ExampleFirstSelection();
    ExampleFirstPivot();
    PassIntro(ExampleStart(), [3, 4, 5], 2, 0, ExampleSecond(), [3, 0, 5]);
  }

  /** The second pass: x3 replaces x4 (0-based 3) as row 1's basic variable. */
  lemma ExampleSecondPass()
    ensures Pass(ExampleSecond(), [3, 0, 5], 1, 2, ExampleFinal(), [2, 0, 5])
  {
    ExampleShapes();
    ExampleSecondSelection();
    ExampleSecondPivot();
    PassIntro(ExampleSecond(), [3, 0, 5], 1, 2, ExampleFinal(), [2, 0, 5]);
  }

  /**
   * The example solved, whatever the iteration bound beyond three: x1
   * enters in row 2, then x3 enters in row 1, and the third pass reports the
   * optimum 15 with basics x3, x1, x6.
   */
  lemma ExampleRun(fuel: nat)
    requires fuel >= 3
    ensures Run(ExampleStart(), [3, 4, 5], fuel) == Final(Optimal, ExampleFinal(), [2, 0, 5])
    ensures ExampleFinal()[0][6] == 15.0
  {
    ExampleFirstPass();
    ExampleSecondPass();
    ExampleFinalSelection();
    RunTwoPassesThenOptimal(ExampleStart(), [3, 4, 5], 2, 0, ExampleSecond(), [3, 0, 5],
                            1, 2, ExampleFinal(), [2, 0, 5], fuel);
  }

  // ---------------------------------------------------------------------
  // A zero in the pivot column: maximise 3x1 + 2x2 under x1 + x2 <= 4,
  // x1 <= 2, x2 <= 3 (optimum 10 at x1 = x2 = 2).
  // ---------------------------------------------------------------------

  function ZeroEntryStart(): Matrix {
    [[-3.0, -2.0, 0.0, 0.0, 0.0, 0.0],
     [1.0, 1.0, 1.0, 0.0, 0.0, 4.0],
     [1.0, 0.0, 0.0, 1.0, 0.0, 2.0],
     [0.0, 1.0, 0.0, 0.0, 1.0, 3.0]]
  }

  /** x1 enters, but the third restriction has no x1 term: the ratio test would divide by zero. */
  lemma ZeroEntrySelection()
    ensures Rect(ZeroEntryStart()) && |ZeroEntryStart()| == 4
    ensures SelectPivot(ZeroEntryStart()) == Err(DivisionByZero)
  {
    var t := ZeroEntryStart();
    assert FindLeavingCol(t) == Ok(0);
    assert t[3][0] == 0.0;
  }

  /** The loop aborts on the first pass of this bounded, feasible problem. */
  lemma ZeroEntryRun(fuel: nat)
    requires fuel >= 1
    ensures Run(ZeroEntryStart(), [2, 3, 4], fuel) == Final(Failed(DivisionByZero), ZeroEntryStart(), [2, 3, 4])
  {
    ZeroEntrySelection();
    RunFailsAtOnce(ZeroEntryStart(), [2, 3, 4], fuel, DivisionByZero);
  }

  // ---------------------------------------------------------------------
  // An unbounded problem: maximise x1 under x1 - x2 <= 1.
  // ---------------------------------------------------------------------

  function UnboundedStart(): Matrix {
    [[-1.0, 0.0, 0.0, 0.0],
     [1.0, -1.0, 1.0, 1.0]]
  }

  function UnboundedSecond(): Matrix {
    [[0.0, -1.0, 1.0, 1.0],
     [1.0, -1.0, 1.0, 1.0]]
  }

  /** x1 enters in the only row; its ratio is 1. */
  lemma UnboundedFirstSelection()
    ensures Rect(UnboundedStart()) && |UnboundedStart()| == 2 && [2][1 - 1 := 0] == [0]
    ensures SelectPivot(UnboundedStart()) == Ok((1, 0))
  {
    var t := UnboundedStart();
    assert FindLeavingCol(t) == Ok(0);
    assert Ratios(t, 0) == [1.0];
  }

  lemma UnboundedFirstPivot()
    ensures Pivoted(UnboundedStart(), 1, 0) == UnboundedSecond()
  {
    var t, u := UnboundedStart(), UnboundedSecond();
    EliminatedRowExact(t, 1, 0, 0, 1.0, u[0]);
    DividedRowExact(t, 1, 0, u[1]);
    assert forall r | 0 <= r < 2 :: Pivoted(t, 1, 0)[r] == u[r];
  }

  lemma UnboundedFirstPass()
    ensures Pass(UnboundedStart(), [2], 1, 0, UnboundedSecond(), [0])
  {
    UnboundedFirstSelection();
    UnboundedFirstPivot();
    PassIntro(UnboundedStart(), [2], 1, 0, UnboundedSecond(), [0]);
  }

  /** x2 enters next, but its only ratio, 1 / -1, is negative and filtered out. */
  lemma UnboundedSecondSelection()
    ensures SelectPivot(UnboundedSecond()) == Err(EmptyMin)
  {
    var u := UnboundedSecond();
    assert FindLeavingCol(u) == Ok(1);
    assert Ratio(u, 1, 1) == -1.0;
  }

  /**
   * Unboundedness is not recognised: after one pivot the ratio test fails
   * with an empty minimum.
   */
  lemma UnboundedRun(fuel: nat)
    requires fuel >= 2
    ensures Run(UnboundedStart(), [2], fuel) == Final(Failed(EmptyMin), UnboundedSecond(), [0])
  {
    UnboundedFirstPass();
    UnboundedSecondSelection();
    RunPassThenFails(UnboundedStart(), [2], 1, 0, UnboundedSecond(), [0], fuel, EmptyMin);
  }

  // ---------------------------------------------------------------------
  // Malformed problems.
  // ---------------------------------------------------------------------

  /** An objective sense other than "max" or "min" is rejected first. */
  lemma UnknownSenseRejected()
    ensures Build(Problem(Objective("maximize", [1.0]), [Restriction("=", [], 3.0)])) == Err(InvalidProblemType)
  {
    assert !KnownSense("maximize");
  }

  /** A restriction with fewer coefficients than the objective is rejected before any relation is read. */
  lemma WidthMismatchRejected()
    ensures Build(Problem(Objective("max", [1.0, 2.0]), [Restriction("=", [1.0], 3.0)])) == Err(ProblemVarsMismatch)
  {
    var p := Problem(Objective("max", [1.0, 2.0]), [Restriction("=", [1.0], 3.0)]);
    assert |p.rests[0].coefs| != |p.obj.coefs|;
  }

  /** An equality restriction is rejected: only "<=" and ">=" are known. */
  lemma EqualityRejected()
    ensures Build(Problem(Objective("min", [1.0]), [Restriction("=", [1.0], 3.0)])) == Err(InvalidRestType)
  {
    var p := Problem(Objective("min", [1.0]), [Restriction("=", [1.0], 3.0)]);
    assert KnownSense(p.obj.kind) && SameWidth(p);
    assert !KnownRelation(p.rests[0].kind);
  }

  // ---------------------------------------------------------------------
  // The ratio test's row index: maximise x1 under -x1 <= 1 and x1 <= 5
  // (optimum 5 at x1 = 5).
  // ---------------------------------------------------------------------

  function CycleProblem(): Problem {
    Problem(Objective("max", [1.0]),
            [Restriction("<=", [-1.0], 1.0),
             Restriction("<=", [1.0], 5.0)])
  }

  function CycleStart(): Matrix {
    [[-1.0, 0.0, 0.0, 0.0],
     [-1.0, 1.0, 0.0, 1.0],
     [1.0, 0.0, 1.0, 5.0]]
  }

  function CycleSecond(): Matrix {
    [[0.0, -1.0, 0.0, -1.0],
     [1.0, -1.0, 0.0, -1.0],
     [0.0, 1.0, 1.0, 6.0]]
  }

  lemma CycleBuild()
    ensures Build(CycleProblem()) == Ok(Start(CycleStart(), [1, 2]))
  {
    var b := Build(CycleProblem());
    assert b.Ok?;
    var t := b.value.tableau;
    assert |t| == 3 && Width(t) == 4;
    forall q, c | 0 <= q < 3 && 0 <= c < 4
      ensures t[q][c] == CycleStart()[q][c]
    {
    }
    assert forall q | 0 <= q < 3 :: t[q] == CycleStart()[q];
    assert t == CycleStart();
    assert b.value.basics == [1, 2];
    assert b.value == Start(CycleStart(), [1, 2]);
  }

  /**
   * Row 1's ratio 1 / -1 is dropped by the filter; the survivor 5, row 2's
   * ratio, sits at position 0 of the filtered list, so the ratio test returns
   * row 1: the row of NEGATIVE ratio, where the minimum-ratio row is row 2.
   */
  lemma CycleFirstSelection()
    ensures SelectPivot(CycleStart()) == Ok((1, 0))
    ensures Ratio(CycleStart(), 1, 0) == -1.0 && Ratio(CycleStart(), 2, 0) == 5.0
  {
    var t := CycleStart();
    assert FindLeavingCol(t) == Ok(0);
    assert Ratios(t, 0) == [-1.0, 5.0];
  }

  /** Pivoting on that row turns the feasible start into an infeasible tableau. */
  lemma SelectPivotMisreadsFilteredRow()
    ensures Rect(CycleStart()) && Feasible(CycleStart())
    ensures SelectPivot(CycleStart()) == Ok((1, 0))
    ensures Rect(Pivoted(CycleStart(), 1, 0)) && !Feasible(Pivoted(CycleStart(), 1, 0))
  {
    CycleFirstSelection();
    CycleFirstPivot();
    assert CycleSecond()[1][3] < 0.0;
  }

  /** In the pivoted tableau x2 enters; of the ratios 1 and 6, row 1's is the least. */
  lemma CycleSecondSelection()
    ensures SelectPivot(CycleSecond()) == Ok((1, 1))
  {
    var u := CycleSecond();
    assert FindLeavingCol(u) == Ok(1);
    assert Ratios(u, 1) == [1.0, 6.0];
  }

  lemma CycleFirstPivot()
    ensures Pivoted(CycleStart(), 1, 0) == CycleSecond()
  {
    var t, u := CycleStart(), CycleSecond();
    EliminatedRowExact(t, 1, 0, 0, -1.0, u[0]);
    DividedRowExact(t, 1, 0, u[1]);
    EliminatedRowExact(t, 1, 0, 2, 1.0, u[2]);
    assert forall r | 0 <= r < 3 :: Pivoted(t, 1, 0)[r] == u[r];
  }

  lemma CycleSecondPivot()
    ensures Pivoted(CycleSecond(), 1, 1) == CycleStart()
  {
    var t, u := CycleSecond(), CycleStart();
    EliminatedRowExact(t, 1, 1, 0, -1.0, u[0]);
    DividedRowExact(t, 1, 1, u[1]);
    EliminatedRowExact(t, 1, 1, 2, 1.0, u[2]);
    assert forall r | 0 <= r < 3 :: Pivoted(t, 1, 1)[r] == u[r];
  }

  lemma CycleShapes()
    ensures Rect(CycleStart()) && |CycleStart()| == 3 && [1, 2][1 - 1 := 0] == [0, 2]
    ensures Rect(CycleSecond()) && |CycleSecond()| == 3 && [0, 2][1 - 1 := 1] == [1, 2]
  {
  }

  lemma CycleFirstPass()
    ensures Pass(CycleStart(), [1, 2], 1, 0, CycleSecond(), [0, 2])
  {
    CycleShapes();
    CycleFirstSelection();
    CycleFirstPivot();
    PassIntro(CycleStart(), [1, 2], 1, 0, CycleSecond(), [0, 2]);
  }

  lemma CycleSecondPass()
    ensures Pass(CycleSecond(), [0, 2], 1, 1, CycleStart(), [1, 2])
  {
    CycleShapes();
    CycleSecondSelection();
    CycleSecondPivot();
    PassIntro(CycleSecond(), [0, 2], 1, 1, CycleStart(), [1, 2]);
  }

  /**
   * The second pivot restores the starting tableau and basic variables, so
   * the loop never reaches the optimum 5: it runs out of any iteration bound.
   */
  lemma CycleRun(fuel: nat)
    ensures Run(CycleStart(), [1, 2], fuel).outcome == OutOfFuel
  {
    CycleFirstPass();
    CycleSecondPass();
    RunCycles(CycleStart(), [1, 2], 1, 0, CycleSecond(), [0, 2], 1, 1, fuel);
  }
}
