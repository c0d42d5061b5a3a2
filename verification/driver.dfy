/**
 * The driver script's loop: build the tableau, then pivot until the column
 * rule reports optimality, writing the pivot column into the basic-variable
 * list after each pivot. The source loops without bound; here a `fuel`
 * argument bounds the number of iterations.
 */
module Driver {
  import opened Wrappers
  import opened Tableau
  import opened Simplex
  import opened StandardForm

  /**
   * How the loop ends: `Optimal` when the column rule raises its optimality
   * signal (the only exception the loop catches), `Failed` for an exception
   * that escapes the loop, `OutOfFuel` when the model's iteration bound is
   * used up.
   */
  datatype Outcome = Optimal | Failed(error: StepError) | OutOfFuel

  datatype Final = Final(outcome: Outcome, tableau: Matrix, basics: seq<nat>)

  /** The loop as a function of the starting tableau and basic-variable list. */
  function Run(t: Matrix, basics: seq<nat>, fuel: nat): (f: Final)
    requires Rect(t) && |basics| == |t| - 1
    ensures Rect(f.tableau) && |f.tableau| == |t| && Width(f.tableau) == Width(t)
    ensures |f.basics| == |basics|
    ensures f.outcome != Failed(NoLeavingVar)
    decreases fuel, 0
  {
    if fuel == 0 then Final(OutOfFuel, t, basics) else Iterate(t, basics, fuel - 1)
  }

  /**
   * One pass of the loop body, then the rest of the loop with `fuel` passes
   * left: stop on the optimality signal or on an escaping exception,
   * otherwise pivot and record the pivot column as the row's basic variable.
   */
  function Iterate(t: Matrix, basics: seq<nat>, fuel: nat): (f: Final)
    requires Rect(t) && |basics| == |t| - 1
    ensures Rect(f.tableau) && |f.tableau| == |t| && Width(f.tableau) == Width(t)
    ensures |f.basics| == |basics|
    ensures f.outcome != Failed(NoLeavingVar)
    decreases fuel, 1
  {
    var step := SelectPivot(t);
    if step == Err(NoLeavingVar) then Final(Optimal, t, basics)
    else if step.Err? then Final(Failed(step.error), t, basics)
    else
      var i, j := step.value.0, step.value.1;
      Run(Pivoted(t, i, j), basics[i - 1 := j], fuel)
  }

  /**
   * The canonical-form invariant survives the whole loop: after any number of
   * pivots, column basics[k] is still the unit vector of row k + 1.
   */
  lemma {:induction false} RunKeepsCanonical(t: Matrix, basics: seq<nat>, fuel: nat)
    requires Canonical(t, basics)
    ensures Canonical(Run(t, basics, fuel).tableau, Run(t, basics, fuel).basics)
    decreases fuel
  {
    if fuel > 0 {
      var step := SelectPivot(t);
      if step.Ok? {
        var i, j := step.value.0, step.value.1;
        PivotKeepsCanonical(t, basics, i, j);
        RunKeepsCanonical(Pivoted(t, i, j), basics[i - 1 := j], fuel - 1);
      }
    }
  }

  /**
   * Optimality certificate: the loop reports `Optimal` only when every row-0
   * entry of the final tableau except the rhs is non-negative.
   */
  lemma RunOptimalCertificate(t: Matrix, basics: seq<nat>, fuel: nat)
    requires Rect(t) && |basics| == |t| - 1
    ensures Run(t, basics, fuel).outcome == Optimal ==> RowZeroNonNegative(Run(t, basics, fuel).tableau)
  {
    OptimalEndsNonNegative(t, basics, fuel, Run(t, basics, fuel));
  }

  /** RunOptimalCertificate for the final state `target` that the loop reaches from here. */
  lemma {:induction false} OptimalEndsNonNegative(t: Matrix, basics: seq<nat>, fuel: nat, target: Final)
    requires Rect(t) && |basics| == |t| - 1 && Continues(t, basics, fuel, target)
    ensures target.outcome == Optimal ==> Rect(target.tableau) && RowZeroNonNegative(target.tableau)
    decreases fuel
  {
    if fuel > 0 {
      var step := SelectPivot(t);
      if step.Err? {
        StopEndsLoop(t, basics, fuel, target);
      } else {
        var (i, j) := step.value;
        PivotContinuesLoop(t, basics, fuel, target, i, j);
        OptimalEndsNonNegative(Pivoted(t, i, j), basics[i - 1 := j], fuel - 1, target);
      }
    }
  }

  /**
   * An exception that escapes the loop is the one the selection raises on
   * the final tableau, which no pivot touched after it.
   */
  lemma RunFailureIsSelection(t: Matrix, basics: seq<nat>, fuel: nat)
    requires Rect(t) && |basics| == |t| - 1
    ensures Run(t, basics, fuel).outcome.Failed? ==>
              SelectPivot(Run(t, basics, fuel).tableau) == Err(Run(t, basics, fuel).outcome.error)
  {
    FailureEndsOnSelection(t, basics, fuel, Run(t, basics, fuel));
  }

  /** RunFailureIsSelection for the final state `target` that the loop reaches from here. */
  lemma {:induction false} FailureEndsOnSelection(t: Matrix, basics: seq<nat>, fuel: nat, target: Final)
    requires Rect(t) && |basics| == |t| - 1 && Continues(t, basics, fuel, target)
    ensures target.outcome.Failed? ==> Rect(target.tableau) && SelectPivot(target.tableau) == Err(target.outcome.error)
    decreases fuel
  {
    if fuel > 0 {
      var step := SelectPivot(t);
      if step.Err? {
        StopEndsLoop(t, basics, fuel, target);
      } else {
        var (i, j) := step.value;
        PivotContinuesLoop(t, basics, fuel, target, i, j);
        FailureEndsOnSelection(Pivoted(t, i, j), basics[i - 1 := j], fuel - 1, target);
      }
    }
  }

  /** A pass whose selection fails ends the loop on the tableau it was given. */
  lemma RunStops(t: Matrix, basics: seq<nat>, fuel: nat)
    requires Rect(t) && |basics| == |t| - 1 && fuel > 0 && SelectPivot(t).Err?
    ensures Run(t, basics, fuel) ==
              Final(if SelectPivot(t) == Err(NoLeavingVar) then Optimal else Failed(SelectPivot(t).error), t, basics)
  {
  }

  /** A pass that selects a pivot hands the pivoted tableau to the rest of the loop. */
  lemma RunPivots(t: Matrix, basics: seq<nat>, fuel: nat)
    requires Rect(t) && |basics| == |t| - 1 && fuel > 0 && SelectPivot(t).Ok?
    ensures var i, j := SelectPivot(t).value.0, SelectPivot(t).value.1;
            Run(t, basics, fuel) == Run(Pivoted(t, i, j), basics[i - 1 := j], fuel - 1)
  {
  }

  /**
   * The loop on the mutable matrix: `DoStep` runs the column rule, the
   * ratio test and the pivot; after each pivot the entry of the pivot row in
   * the basic-variable list becomes the pivot column.
   */
  method Solve(a: array2<real>, basics: seq<nat>, fuel: nat) returns (outcome: Outcome, basicVars: seq<nat>)
    requires a.Length0 > 0 && |basics| == a.Length0 - 1
    modifies a
    ensures Final(outcome, Rows(a), basicVars) == Run(old(Rows(a)), basics, fuel)
  {
    ghost var target := Run(Rows(a), basics, fuel);
    ghost var cur := Rows(a);
    basicVars := basics;
    var left := fuel;
    while left > 0
      invariant Rows(a) == cur && Rect(cur) && |basicVars| == |cur| - 1
      invariant Continues(cur, basicVars, left, target)
      decreases left
    {
      var step := DoStep(a);
      if step.Err? {
        outcome := if step == Err(NoLeavingVar) then Optimal else Failed(step.error);
        StopEndsLoop(cur, basicVars, left, target);
        return;
      }
      var (row, col) := step.value;
      PivotContinuesLoop(cur, basicVars, left, target, row, col);
      cur := Pivoted(cur, row, col);
      basicVars := basicVars[row - 1 := col];
      left := left - 1;
    }
    outcome := OutOfFuel;
  }

  /** The loop run from this state for `fuel` more passes ends in `target`. */
  ghost predicate Continues(t: Matrix, basics: seq<nat>, fuel: nat, target: Final)
    requires Rect(t) && |basics| == |t| - 1
  {
    Run(t, basics, fuel) == target
  }

  /** A pass whose selection fails ends the loop on the tableau it was given. */
  lemma StopEndsLoop(t: Matrix, basics: seq<nat>, fuel: nat, target: Final)
    requires Rect(t) && |basics| == |t| - 1 && fuel > 0 && SelectPivot(t).Err?
    requires Continues(t, basics, fuel, target)
    ensures target ==
              Final(if SelectPivot(t) == Err(NoLeavingVar) then Optimal else Failed(SelectPivot(t).error), t, basics)
  {
    RunStops(t, basics, fuel);
  }

  /** A pass that pivots on (i, j) hands the pivoted tableau to the rest of the loop. */
  lemma PivotContinuesLoop(t: Matrix, basics: seq<nat>, fuel: nat, target: Final, i: nat, j: nat)
    requires Rect(t) && |basics| == |t| - 1 && fuel > 0 && SelectPivot(t) == Ok((i, j))
    requires Continues(t, basics, fuel, target)
    ensures Continues(Pivoted(t, i, j), basics[i - 1 := j], fuel - 1, target)
  {
    RunPivots(t, basics, fuel);
  }

  /** The script end to end: build the tableau from the problem, then run the loop on it. */
  method SolveProblem(p: Problem, fuel: nat) returns (r: Result<(Outcome, array2<real>, seq<nat>), BuildError>)
    ensures r.Err? ==> Build(p) == Err(r.error)
    ensures r.Ok? ==>
              && Build(p).Ok?
              && Run(Build(p).value.tableau, Build(p).value.basics, fuel) ==
                   Final(r.value.0, Rows(r.value.1), r.value.2)
  {
    var built := ProblemToMatrix(p);
    if built.Err? {
      return Err(built.error);
    }
    var a := built.value.tableau;
    var outcome, basicVars := Solve(a, built.value.basics, fuel);
    r := Ok((outcome, a, basicVars));
  }
}

/**
 * Runs composed pass by pass. `Pass` names what one pass of the loop does to
 * a given tableau and basic-variable list; the lemmas chain such passes into
 * whole runs, so a run on a concrete problem follows from the selection and
 * the pivot of each of its passes.
 */
module Traces {
  import opened Wrappers
  import opened Tableau
  import opened Simplex
  import opened Driver

  /** One pass of the loop on (t0, b0) pivots on (i, j) and leaves (t1, b1). */
  ghost predicate Pass(t0: Matrix, b0: seq<nat>, i: nat, j: nat, t1: Matrix, b1: seq<nat>) {
    && Rect(t0) && |b0| == |t0| - 1
    && SelectPivot(t0) == Ok((i, j))
    && Pivoted(t0, i, j) == t1
    && b0[i - 1 := j] == b1
  }

  /** The facts that make up a pass, one by one. */
  lemma PassIntro(t0: Matrix, b0: seq<nat>, i: nat, j: nat, t1: Matrix, b1: seq<nat>)
    requires Rect(t0) && |b0| == |t0| - 1
    requires SelectPivot(t0) == Ok((i, j))
    requires Pivoted(t0, i, j) == t1
    requires b0[i - 1 := j] == b1
    ensures Pass(t0, b0, i, j, t1, b1)
  {
  }

  /** A pass keeps the tableau's shape and the length of the basic-variable list. */
  lemma PassShape(t0: Matrix, b0: seq<nat>, i: nat, j: nat, t1: Matrix, b1: seq<nat>)
    requires Pass(t0, b0, i, j, t1, b1)
    ensures Rect(t1) && |t1| == |t0| && Width(t1) == Width(t0) && |b1| == |t1| - 1
  {
  }

  /** A pass that pivots hands its result to the rest of the loop. */
  lemma PassRun(t0: Matrix, b0: seq<nat>, i: nat, j: nat, t1: Matrix, b1: seq<nat>, fuel: nat)
    requires Pass(t0, b0, i, j, t1, b1) && fuel > 0
    ensures Rect(t1) && |b1| == |t1| - 1
    ensures Run(t0, b0, fuel) == Run(t1, b1, fuel - 1)
  {
    PassShape(t0, b0, i, j, t1, b1);
    RunPivots(t0, b0, fuel);
  }

  /** A selection that fails on the first pass ends the run there. */
  lemma RunFailsAtOnce(t: Matrix, b: seq<nat>, fuel: nat, e: StepError)
    requires Rect(t) && |b| == |t| - 1 && fuel >= 1
    requires SelectPivot(t) == Err(e) && e != NoLeavingVar
    ensures Run(t, b, fuel) == Final(Failed(e), t, b)
  {
    RunStops(t, b, fuel);
  }

  /** One pivot, then a selection that fails. */
  lemma RunPassThenFails(t0: Matrix, b0: seq<nat>, i: nat, j: nat, t1: Matrix, b1: seq<nat>, fuel: nat, e: StepError)
    requires Pass(t0, b0, i, j, t1, b1) && fuel >= 2
    requires SelectPivot(t1) == Err(e) && e != NoLeavingVar
    ensures Run(t0, b0, fuel) == Final(Failed(e), t1, b1)
  {
    PassRun(t0, b0, i, j, t1, b1, fuel);
    RunStops(t1, b1, fuel - 1);
  }

  /** One pivot, then the optimality signal. */
  lemma RunPassThenOptimal(t0: Matrix, b0: seq<nat>, i: nat, j: nat, t1: Matrix, b1: seq<nat>, fuel: nat)
    requires Pass(t0, b0, i, j, t1, b1) && fuel >= 2
    requires SelectPivot(t1) == Err(NoLeavingVar)
    ensures Run(t0, b0, fuel) == Final(Optimal, t1, b1)
  {
    PassRun(t0, b0, i, j, t1, b1, fuel);
    RunStops(t1, b1, fuel - 1);
  }

  /** Two pivots, then the optimality signal. */
  lemma RunTwoPassesThenOptimal(t0: Matrix, b0: seq<nat>, i0: nat, j0: nat, t1: Matrix, b1: seq<nat>,
                                i1: nat, j1: nat, t2: Matrix, b2: seq<nat>, fuel: nat)
    requires Pass(t0, b0, i0, j0, t1, b1) && Pass(t1, b1, i1, j1, t2, b2) && fuel >= 3
    requires SelectPivot(t2) == Err(NoLeavingVar)
    ensures Run(t0, b0, fuel) == Final(Optimal, t2, b2)
  {
    PassRun(t0, b0, i0, j0, t1, b1, fuel);
    RunPassThenOptimal(t1, b1, i1, j1, t2, b2, fuel - 1);
  }

  /**
   * Two passes that lead back to the starting tableau and basics repeat for
   * ever: the loop never stops by itself.
   */
  lemma {:induction false} RunCycles(t0: Matrix, b0: seq<nat>, i0: nat, j0: nat, t1: Matrix, b1: seq<nat>,
                                     i1: nat, j1: nat, fuel: nat)
    requires Pass(t0, b0, i0, j0, t1, b1) && Pass(t1, b1, i1, j1, t0, b0)
    ensures Run(t0, b0, fuel).outcome == OutOfFuel
    decreases fuel
  {
    if fuel >= 2 {
      PassRun(t0, b0, i0, j0, t1, b1, fuel);
      PassRun(t1, b1, i1, j1, t0, b0, fuel - 1);
      RunCycles(t0, b0, i0, j0, t1, b1, i1, j1, fuel - 2);
    } else if fuel == 1 {
      PassRun(t0, b0, i0, j0, t1, b1, fuel);
    }
  }
}
