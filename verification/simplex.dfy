/**
 * The pivot engine: Dantzig's column rule, the ratio test as the source
 * writes it, and in-place Gauss-Jordan elimination.
 *
 * The source names the selectors after the variable the other one decides:
 * `FindLeavingCol` chooses the column of the ENTERING variable and
 * `FindEnteringRow` the row of the LEAVING variable. The names are kept.
 */
module Simplex {
  import opened Wrappers
  import opened Tableau

  /**
   * Why a step stops. `NoLeavingVar` is the source's optimality signal; the
   * other two are exceptions the source does not catch: `EmptyMin` is
   * Python's `min` over an empty list (there is no unboundedness signal, the
   * ratio test simply finds nothing to minimise), `DivisionByZero` is a zero
   * entry in the pivot column, which the ratio test divides by.
   */
  datatype StepError = NoLeavingVar | EmptyMin | DivisionByZero

  /**
   * Optimality of the tableau as the column rule sees it: there is at least
   * one non-rhs column, and no row-0 entry outside the rhs is negative.
   */
  predicate RowZeroNonNegative(t: Matrix)
    requires Rect(t)
  {
    Width(t) > 1 && forall c :: 0 <= c < Width(t) - 1 ==> t[0][c] >= 0.0
  }

  /**
   * Dantzig's rule on row 0: the column of the most negative entry outside
   * the rhs column, the earliest one on ties.
   */
  function FindLeavingCol(t: Matrix): (r: Result<nat, StepError>)
    requires Rect(t)
    ensures r.Ok? ==> r.value < Width(t) - 1 && t[0][r.value] < 0.0
    ensures r.Ok? ==> forall c :: 0 <= c < Width(t) - 1 ==> t[0][r.value] <= t[0][c]
    ensures r.Ok? ==> forall c :: 0 <= c < r.value ==> t[0][r.value] < t[0][c]
    ensures r == Err(NoLeavingVar) <==> RowZeroNonNegative(t)
    ensures r == Err(EmptyMin) <==> Width(t) <= 1
    ensures r != Err(DivisionByZero)
  {
    // `first` is row 0 without its rhs entry: the first Width(t) - 1 entries
    var n := Width(t) - 1;
    if n <= 0 then Err(EmptyMin)
    else
      var idx := ArgMin(t[0], n);
      if t[0][idx] >= 0.0 then Err(NoLeavingVar) else Ok(idx)
  }

  /** Every constraint-row entry of column `j` is non-zero. */
  predicate NonZeroColumn(t: Matrix, j: nat)
    requires Rect(t) && j < Width(t)
  {
    forall k :: 1 <= k < |t| ==> t[k][j] != 0.0
  }

  /** The ratio rhs / entry of constraint row `k` for column `j`. */
  function Ratio(t: Matrix, k: nat, j: nat): real
    requires Rect(t) && 1 <= k < |t| && j < Width(t) && t[k][j] != 0.0
  {
    t[k][Width(t) - 1] / t[k][j]
  }

  /** The ratios of all constraint rows, row 1 first. */
  function Ratios(t: Matrix, j: nat): (rs: seq<real>)
    requires Rect(t) && j < Width(t) && NonZeroColumn(t, j)
    ensures |rs| == |t| - 1
    ensures forall q :: 0 <= q < |rs| ==> rs[q] == Ratio(t, q + 1, j)
  {
    seq(|t| - 1, q requires 0 <= q < |t| - 1 => Ratio(t, q + 1, j))
  }

  /** The non-negative elements of `s`, in order (the comprehension's filter). */
  function NonNegatives(s: seq<real>): (r: seq<real>)
    ensures |r| <= |s|
    ensures (forall q :: 0 <= q < |s| ==> s[q] >= 0.0) ==> r == s
  {
    if s == [] then []
    else (if s[0] >= 0.0 then [s[0]] else []) + NonNegatives(s[1..])
  }

  /** The filter keeps exactly the non-negative elements. */
  lemma {:induction false} NonNegativesMembers(s: seq<real>)
    ensures forall x :: x in NonNegatives(s) <==> x in s && x >= 0.0
  {
    if s != [] {
      NonNegativesMembers(s[1..]);
      assert s == [s[0]] + s[1..];
    }
  }

  /** The filter distributes over concatenation, so it keeps the order of its input. */
  lemma {:induction false} NonNegativesAppend(a: seq<real>, b: seq<real>)
    ensures NonNegatives(a + b) == NonNegatives(a) + NonNegatives(b)
  {
    if a == [] {
      assert a + b == b;
    } else {
      var head := if a[0] >= 0.0 then [a[0]] else [];
      assert (a + b)[0] == a[0];
      assert (a + b)[1..] == a[1..] + b;
      calc {
        NonNegatives(a + b);
        head + NonNegatives(a[1..] + b);
        { NonNegativesAppend(a[1..], b); }
        head + (NonNegatives(a[1..]) + NonNegatives(b));
        (head + NonNegatives(a[1..])) + NonNegatives(b);
      }
    }
  }

  /**
   * A non-negative `s[k]` survives the filter at the position given by the
   * number of survivors before it, and the survivors ahead of it are exactly
   * those of `s[..k]`.
   */
  lemma NonNegativesPosition(s: seq<real>, k: nat)
    requires k < |s| && s[k] >= 0.0
    ensures var m := |NonNegatives(s[..k])|;
            && m < |NonNegatives(s)|
            && NonNegatives(s)[m] == s[k]
            && NonNegatives(s)[..m] == NonNegatives(s[..k])
  {
    assert s == s[..k] + s[k..];
    NonNegativesAppend(s[..k], s[k..]);
    assert s[k..][1..] == s[k + 1..];
  }

  /**
   * The ratio test as written: filter the ratios to the non-negative ones
   * and return 1 + the position of the first minimum IN THE FILTERED LIST.
   * That position is a constraint row's index only when no ratio was
   * dropped (see SelectPivotMisreadsFilteredRow).
   */
  function FindEnteringRow(t: Matrix, j: nat): (r: Result<nat, StepError>)
    requires Rect(t) && j < Width(t) && NonZeroColumn(t, j)
    ensures r.Err? <==> forall k :: 1 <= k < |t| ==> Ratio(t, k, j) < 0.0
    ensures r.Err? ==> r.error == EmptyMin
    ensures r.Ok? ==> 1 <= r.value < |t| && r.value - 1 < |NonNegatives(Ratios(t, j))|
  {
    var thetas := NonNegatives(Ratios(t, j));
    if |thetas| == 0 then
      NoRatioKept(t, j);
      Err(EmptyMin)
    else
      SomeRatioKept(t, j);
      Ok(ArgMin(thetas, |thetas|) + 1)
  }

  /**
   * The returned row number minus one indexes the least surviving ratio, the
   * first one on ties; it is no larger than any non-negative ratio.
   */
  lemma FindEnteringRowKeptMin(t: Matrix, j: nat)
    requires Rect(t) && j < Width(t) && NonZeroColumn(t, j) && FindEnteringRow(t, j).Ok?
    ensures var kept, p := NonNegatives(Ratios(t, j)), FindEnteringRow(t, j).value - 1;
            && p < |kept|
            && (forall k :: 1 <= k < |t| && Ratio(t, k, j) >= 0.0 ==> kept[p] <= Ratio(t, k, j))
            && (forall q :: 0 <= q < p ==> kept[p] < kept[q])
  {
    var kept, p := NonNegatives(Ratios(t, j)), FindEnteringRow(t, j).value - 1;
    KeptRatios(t, j);
    forall k | 1 <= k < |t| && Ratio(t, k, j) >= 0.0
      ensures kept[p] <= Ratio(t, k, j)
    {
      var q :| 0 <= q < |kept| && kept[q] == Ratio(t, k, j);
    }
  }

  /**
   * Where the ratio test lands: if row `k` holds the least non-negative
   * ratio, the first such row, the returned row number is one more than the
   * number of non-negative ratios above row `k`, not `k` itself.
   */
  lemma FindEnteringRowPosition(t: Matrix, j: nat, k: nat)
    requires Rect(t) && j < Width(t) && NonZeroColumn(t, j)
    requires 1 <= k < |t| && Ratio(t, k, j) >= 0.0
    requires forall q :: 1 <= q < |t| && Ratio(t, q, j) >= 0.0 ==> Ratio(t, k, j) <= Ratio(t, q, j)
    requires forall q :: 1 <= q < k && Ratio(t, q, j) >= 0.0 ==> Ratio(t, k, j) < Ratio(t, q, j)
    ensures FindEnteringRow(t, j) == Ok(|NonNegatives(Ratios(t, j)[..k - 1])| + 1)
  {
    var rs := Ratios(t, j);
    forall q | 0 <= q < |rs| && rs[q] >= 0.0
      ensures rs[k - 1] <= rs[q]
    {
      assert rs[q] == Ratio(t, q + 1, j);
    }
    forall q | 0 <= q < k - 1 && rs[q] >= 0.0
      ensures rs[k - 1] < rs[q]
    {
      assert rs[q] == Ratio(t, q + 1, j);
    }
    NonNegativesFirstMin(rs, k - 1);
  }

  /**
   * The exact condition under which the ratio test returns the right row:
   * with row `k` the first row of least non-negative ratio, the returned row
   * is `k` exactly when no ratio above row `k` was filtered out.
   */
  lemma FindEnteringRowExact(t: Matrix, j: nat, k: nat)
    requires Rect(t) && j < Width(t) && NonZeroColumn(t, j)
    requires 1 <= k < |t| && Ratio(t, k, j) >= 0.0
    requires forall q :: 1 <= q < |t| && Ratio(t, q, j) >= 0.0 ==> Ratio(t, k, j) <= Ratio(t, q, j)
    requires forall q :: 1 <= q < k && Ratio(t, q, j) >= 0.0 ==> Ratio(t, k, j) < Ratio(t, q, j)
    ensures FindEnteringRow(t, j) == Ok(k) <==> forall q :: 1 <= q < k ==> Ratio(t, q, j) >= 0.0
  {
    var above := Ratios(t, j)[..k - 1];
    FindEnteringRowPosition(t, j, k);
    NonNegativesKeepsAll(above);
    assert forall q :: 1 <= q < k ==> above[q - 1] == Ratio(t, q, j);
  }

  /** The filter keeps its whole input exactly when no element is negative. */
  lemma {:induction false} NonNegativesKeepsAll(s: seq<real>)
    ensures |NonNegatives(s)| == |s| <==> forall q :: 0 <= q < |s| ==> s[q] >= 0.0
  {
    if s != [] {
      NonNegativesKeepsAll(s[1..]);
      assert forall q :: 1 <= q < |s| ==> s[q] == s[1..][q - 1];
    }
  }

  /**
   * If `s[k]` is the first least non-negative element of `s`, the first
   * minimum of the filtered list sits where `s[k]` landed in it.
   */
  lemma NonNegativesFirstMin(s: seq<real>, k: nat)
    requires k < |s| && s[k] >= 0.0
    requires forall q :: 0 <= q < |s| && s[q] >= 0.0 ==> s[k] <= s[q]
    requires forall q :: 0 <= q < k && s[q] >= 0.0 ==> s[k] < s[q]
    ensures var kept := NonNegatives(s);
            |kept| > 0 && ArgMin(kept, |kept|) == |NonNegatives(s[..k])|
  {
    var before := NonNegatives(s[..k]);
    var kept, m := NonNegatives(s), |before|;
    NonNegativesPosition(s, k);
    NonNegativesMembers(s);
    NonNegativesMembers(s[..k]);
    forall q | 0 <= q < |kept|
      ensures kept[m] <= kept[q]
    {
      assert kept[q] in kept;
    }
    forall q | 0 <= q < m
      ensures kept[m] < kept[q]
    {
      assert kept[q] == before[q] && before[q] in before;
    }
  }

  /**
   * When no ratio is negative, nothing is filtered out and the ratio test
   * returns the constraint row of minimum ratio, the lowest one on ties.
   */
  lemma NoFilterMinRatioRow(t: Matrix, j: nat)
    requires Rect(t) && j < Width(t) && NonZeroColumn(t, j)
    requires |t| > 1 && forall k :: 1 <= k < |t| ==> Ratio(t, k, j) >= 0.0
    ensures FindEnteringRow(t, j).Ok?
    ensures var i := FindEnteringRow(t, j).value;
            && (forall k :: 1 <= k < |t| ==> Ratio(t, i, j) <= Ratio(t, k, j))
            && (forall k :: 1 <= k < i ==> Ratio(t, i, j) < Ratio(t, k, j))
  {
    var rs := Ratios(t, j);
    assert Ratio(t, 1, j) >= 0.0;
    assert NonNegatives(rs) == rs;
    FindEnteringRowKeptMin(t, j);
    var i := FindEnteringRow(t, j).value;
    forall k | 1 <= k < i
      ensures Ratio(t, i, j) < Ratio(t, k, j)
    {
      assert rs[k - 1] == Ratio(t, k, j);
    }
  }

  /** Every non-negative ratio survives the filter. */
  lemma KeptRatios(t: Matrix, j: nat)
    requires Rect(t) && j < Width(t) && NonZeroColumn(t, j)
    ensures forall k :: 1 <= k < |t| && Ratio(t, k, j) >= 0.0 ==> Ratio(t, k, j) in NonNegatives(Ratios(t, j))
  {
    var rs := Ratios(t, j);
    NonNegativesMembers(rs);
    forall k | 1 <= k < |t| && Ratio(t, k, j) >= 0.0
      ensures Ratio(t, k, j) in NonNegatives(rs)
    {
      assert rs[k - 1] in rs;
    }
  }

  /** With every ratio negative, nothing survives the filter. */
  lemma NoRatioKept(t: Matrix, j: nat)
    requires Rect(t) && j < Width(t) && NonZeroColumn(t, j)
    requires |NonNegatives(Ratios(t, j))| == 0
    ensures forall k :: 1 <= k < |t| ==> Ratio(t, k, j) < 0.0
  {
    KeptRatios(t, j);
  }

  /** A survivor of the filter is some constraint row's non-negative ratio. */
  lemma SomeRatioKept(t: Matrix, j: nat)
    requires Rect(t) && j < Width(t) && NonZeroColumn(t, j)
    requires |NonNegatives(Ratios(t, j))| > 0
    ensures exists k :: 1 <= k < |t| && Ratio(t, k, j) >= 0.0
  {
    var rs := Ratios(t, j);
    var x := NonNegatives(rs)[0];
    NonNegativesMembers(rs);
    assert x in NonNegatives(rs);
    var q :| 0 <= q < |rs| && rs[q] == x;
    assert Ratio(t, q + 1, j) >= 0.0;
  }

  /**
   * `zip_row_op` with `v + mul * u`: row `v` plus `mul` times row `u`, built
   * entry by entry from the front, as the source's comprehension over the
   * zipped rows does.
   */
  function AddMultiple(v: seq<real>, u: seq<real>, mul: real): (w: seq<real>)
    requires |v| == |u|
    ensures |w| == |v|
  {
    if |v| == 0 then [] else [v[0] + mul * u[0]] + AddMultiple(v[1..], u[1..], mul)
  }

  /** Entry c of AddMultiple. */
  lemma {:induction false} AddMultipleAt(v: seq<real>, u: seq<real>, mul: real, c: nat)
    requires |v| == |u| && c < |v|
    ensures AddMultiple(v, u, mul)[c] == v[c] + mul * u[c]
    decreases c
  {
    if c > 0 {
      AddMultipleAt(v[1..], u[1..], mul, c - 1);
    }
  }

  /** `row / pivot`, entry by entry from the front. */
  function Divided(v: seq<real>, pivot: real): (w: seq<real>)
    requires pivot != 0.0
    ensures |w| == |v|
  {
    if |v| == 0 then [] else [v[0] / pivot] + Divided(v[1..], pivot)
  }

  /** Entry c of Divided. */
  lemma {:induction false} DividedAt(v: seq<real>, pivot: real, c: nat)
    requires pivot != 0.0 && c < |v|
    ensures Divided(v, pivot)[c] == v[c] / pivot
    decreases c
  {
    if c > 0 {
      DividedAt(v[1..], pivot, c - 1);
    }
  }

  /** Row `r` after the pivot on (i, j). */
  function PivotRow(t: Matrix, i: nat, j: nat, r: nat): (w: seq<real>)
    requires Rect(t) && i < |t| && j < Width(t) && t[i][j] != 0.0 && r < |t|
    ensures |w| == Width(t)
  {
    if r == i then Divided(t[i], t[i][j])
    else AddMultiple(t[r], t[i], -t[r][j] / t[i][j])
  }

  /** Arithmetic helper for PivotedColumns: `mul = -x / p` cancels `x` against the pivot `p`, and `p / p` is 1. */
  lemma Eliminates(x: real, p: real)
    requires p != 0.0
    ensures x + (-x / p) * p == 0.0
    ensures p / p == 1.0
  {
  }

  /**
   * One Gauss-Jordan pivot on entry (i, j): every other row r gets
   * `mul * row i` added with `mul = -t[r][j] / pivot`, then row i is divided
   * by the pivot. This is the value the in-place `MovePivot` produces.
   */
  function Pivoted(t: Matrix, i: nat, j: nat): (u: Matrix)
    requires Rect(t) && i < |t| && j < Width(t) && t[i][j] != 0.0
    ensures Rect(u) && |u| == |t| && Width(u) == Width(t)
  {
    PivotedRows(t, i, j, |t|)
  }

  /** Rows 0 .. n-1 of the pivoted tableau, built from the top, one row per source iteration. */
  function PivotedRows(t: Matrix, i: nat, j: nat, n: nat): (rows: Matrix)
    requires Rect(t) && i < |t| && j < Width(t) && t[i][j] != 0.0 && n <= |t|
    ensures |rows| == n
    ensures forall r :: 0 <= r < n ==> |rows[r]| == Width(t)
  {
    if n == 0 then [] else PivotedRows(t, i, j, n - 1) + [PivotRow(t, i, j, n - 1)]
  }

  /** Row r of PivotedRows is the pivot applied to row r. */
  lemma {:induction false} PivotedRowsAt(t: Matrix, i: nat, j: nat, n: nat, r: nat)
    requires Rect(t) && i < |t| && j < Width(t) && t[i][j] != 0.0 && r < n <= |t|
    ensures PivotedRows(t, i, j, n)[r] == PivotRow(t, i, j, r)
    decreases n
  {
    if r < n - 1 {
      PivotedRowsAt(t, i, j, n - 1, r);
    }
  }

  /**
   * The pivot column becomes the unit vector of the pivot row, and a column
   * whose pivot-row entry is 0 is left as it was.
   */
  lemma PivotedColumns(t: Matrix, i: nat, j: nat)
    requires Rect(t) && i < |t| && j < Width(t) && t[i][j] != 0.0
    ensures UnitColumn(Pivoted(t, i, j), j, i)
    ensures forall r, c :: 0 <= r < |t| && 0 <= c < Width(t) && t[i][c] == 0.0 ==> Pivoted(t, i, j)[r][c] == t[r][c]
  {
    var u := Pivoted(t, i, j);
    forall r | 0 <= r < |t|
      ensures u[r][j] == if r == i then 1.0 else 0.0
    {
      PivotedAt(t, i, j, r, j);
      Eliminates(t[r][j], t[i][j]);
    }
    forall r, c | 0 <= r < |t| && 0 <= c < Width(t) && t[i][c] == 0.0
      ensures u[r][c] == t[r][c]
    {
      PivotedAt(t, i, j, r, c);
    }
  }

  /** Entry (r, c) after the pivot on (i, j). */
  lemma PivotedAt(t: Matrix, i: nat, j: nat, r: nat, c: nat)
    requires Rect(t) && i < |t| && j < Width(t) && t[i][j] != 0.0 && r < |t| && c < Width(t)
    ensures Pivoted(t, i, j)[r][c] ==
              if r == i then t[i][c] / t[i][j] else t[r][c] + (-t[r][j] / t[i][j]) * t[i][c]
  {
    PivotedRowsAt(t, i, j, |t|, r);
    if r == i {
      DividedAt(t[i], t[i][j], c);
    } else {
      AddMultipleAt(t[r], t[i], -t[r][j] / t[i][j], c);
    }
  }

  /**
   * Row r of the pivoted tableau equals `w` when `w` is row r plus `mul`
   * times the pivot row, `mul` being the multiplier the pivot uses for row r.
   */
  lemma EliminatedRowExact(t: Matrix, i: nat, j: nat, r: nat, mul: real, w: seq<real>)
    requires Rect(t) && i < |t| && j < Width(t) && t[i][j] != 0.0 && r < |t| && r != i
    requires mul * t[i][j] == -t[r][j]
    requires |w| == Width(t) && forall c :: 0 <= c < |w| ==> w[c] == t[r][c] + mul * t[i][c]
    ensures Pivoted(t, i, j)[r] == w
  {
    assert -t[r][j] / t[i][j] == mul;
    PivotedRowsAt(t, i, j, |t|, r);
    forall c | 0 <= c < |w|
      ensures PivotRow(t, i, j, r)[c] == w[c]
    {
      AddMultipleAt(t[r], t[i], mul, c);
    }
  }

  /** The pivot row of the pivoted tableau equals `w` when `w` times the pivot is the old row. */
  lemma DividedRowExact(t: Matrix, i: nat, j: nat, w: seq<real>)
    requires Rect(t) && i < |t| && j < Width(t) && t[i][j] != 0.0
    requires |w| == Width(t) && forall c :: 0 <= c < |w| ==> w[c] * t[i][j] == t[i][c]
    ensures Pivoted(t, i, j)[i] == w
  {
    PivotedRowsAt(t, i, j, |t|, i);
    forall c | 0 <= c < |w|
      ensures PivotRow(t, i, j, i)[c] == w[c]
    {
      DividedAt(t[i], t[i][j], c);
      assert w[c] == t[i][c] / t[i][j];
    }
  }

  /** `zip_row_op(r, i, lambda v, u: v + mul * u)` on the matrix itself. */
  method AddRowMultiple(a: array2<real>, r: nat, i: nat, mul: real)
    requires r < a.Length0 && i < a.Length0 && r != i
    modifies a
    ensures forall c :: 0 <= c < a.Length1 ==> a[r, c] == old(a[r, c]) + mul * old(a[i, c])
    ensures forall q, c :: 0 <= q < a.Length0 && q != r && 0 <= c < a.Length1 ==> a[q, c] == old(a[q, c])
  {
    for c := 0 to a.Length1
      invariant forall c' :: 0 <= c' < c ==> a[r, c'] == old(a[r, c']) + mul * old(a[i, c'])
      invariant forall q, c' :: 0 <= q < a.Length0 && 0 <= c' < a.Length1 && (q != r || c <= c') ==>
                  a[q, c'] == old(a[q, c'])
    {
      a[r, c] := a[r, c] + mul * a[i, c];
    }
  }

  /** `matrix[i, :] = matrix[i, :] / pivot`. */
  method DivideRow(a: array2<real>, i: nat, pivot: real)
    requires i < a.Length0 && pivot != 0.0
    modifies a
    ensures forall c :: 0 <= c < a.Length1 ==> a[i, c] == old(a[i, c]) / pivot
    ensures forall q, c :: 0 <= q < a.Length0 && q != i && 0 <= c < a.Length1 ==> a[q, c] == old(a[q, c])
  {
    for c := 0 to a.Length1
      invariant forall c' :: 0 <= c' < c ==> a[i, c'] == old(a[i, c']) / pivot
      invariant forall q, c' :: 0 <= q < a.Length0 && 0 <= c' < a.Length1 && (q != i || c <= c') ==>
                  a[q, c'] == old(a[q, c'])
    {
      a[i, c] := a[i, c] / pivot;
    }
  }

  /**
   * `move_pivot`: the pivot in place, row by row. Each non-pivot row is
   * combined with the (still unchanged) pivot row; the pivot row is divided
   * last, so the pivot used throughout is the original entry.
   */
  method MovePivot(a: array2<real>, i: nat, j: nat)
    requires i < a.Length0 && j < a.Length1 && a[i, j] != 0.0
    modifies a
    ensures Rows(a) == Pivoted(old(Rows(a)), i, j)
  {
    ghost var t := Rows(a);
    ghost var u := Pivoted(t, i, j);
    var pivot := a[i, j];
    for r := 0 to a.Length0
      invariant forall q, c :: 0 <= q < r && q != i && 0 <= c < a.Length1 ==> a[q, c] == u[q][c]
      invariant forall q, c :: (r <= q < a.Length0 || q == i) && 0 <= c < a.Length1 ==> a[q, c] == t[q][c]
    {
      if r == i {
        continue;
      }
      var mul := -a[r, j] / pivot;
      AddRowMultiple(a, r, i, mul);
      forall c | 0 <= c < a.Length1
        ensures a[r, c] == u[r][c]
      {
        PivotedAt(t, i, j, r, c);
      }
    }
    DivideRow(a, i, pivot);
    forall r | 0 <= r < a.Length0
      ensures Rows(a)[r] == u[r]
    {
      forall c | 0 <= c < a.Length1
        ensures Rows(a)[r][c] == u[r][c]
      {
        PivotedAt(t, i, j, r, c);
      }
    }
  }

  /**
   * The selection half of `do_step`: the entering column by Dantzig's rule,
   * then the ratio test. A zero entry in that column makes the source divide
   * by zero; the model stops there with `DivisionByZero`.
   */
  function SelectPivot(t: Matrix): (r: Result<(nat, nat), StepError>)
    requires Rect(t)
    ensures r.Ok? ==> 1 <= r.value.0 < |t| && r.value.1 < Width(t) - 1
    ensures r.Ok? ==> t[0][r.value.1] < 0.0 && NonZeroColumn(t, r.value.1) && t[r.value.0][r.value.1] != 0.0
    ensures r == Err(NoLeavingVar) <==> RowZeroNonNegative(t)
  {
    var col := FindLeavingCol(t);
    if col.Err? then Err(col.error)
    else if !NonZeroColumn(t, col.value) then Err(DivisionByZero)
    else
      var row := FindEnteringRow(t, col.value);
      if row.Err? then Err(row.error) else Ok((row.value, col.value))
  }

  /**
   * The selection is the column rule followed by the ratio test on the
   * chosen column: a selected pair is exactly what the two return, and each
   * error arises exactly where that rule raises it.
   */
  lemma SelectPivotSteps(t: Matrix)
    requires Rect(t)
    ensures var r := SelectPivot(t);
            r.Ok? ==> FindLeavingCol(t) == Ok(r.value.1) && FindEnteringRow(t, r.value.1) == Ok(r.value.0)
    ensures SelectPivot(t) == Err(DivisionByZero) <==>
              FindLeavingCol(t).Ok? && !NonZeroColumn(t, FindLeavingCol(t).value)
    ensures SelectPivot(t) == Err(EmptyMin) <==>
              || Width(t) <= 1
              || (&& FindLeavingCol(t).Ok? && NonZeroColumn(t, FindLeavingCol(t).value)
                  && forall k :: 1 <= k < |t| ==> Ratio(t, k, FindLeavingCol(t).value) < 0.0)
  {
  }

  /**
   * `do_step`: select a pivot and apply it. When the selection fails, the
   * matrix is left as it was; otherwise exactly one pivot is applied, at the
   * (row, column) returned.
   */
  method DoStep(a: array2<real>) returns (r: Result<(nat, nat), StepError>)
    requires a.Length0 > 0
    modifies a
    ensures r == SelectPivot(old(Rows(a)))
    ensures r.Ok? ==> Rows(a) == Pivoted(old(Rows(a)), r.value.0, r.value.1)
    ensures r.Err? ==> Rows(a) == old(Rows(a))
  {
    r := SelectPivot(Rows(a));
    if r.Ok? {
      MovePivot(a, r.value.0, r.value.1);
    }
  }

  /** A pivot keeps every basic column of the other rows and makes column j basic in row i. */
  lemma PivotKeepsCanonical(t: Matrix, basics: seq<nat>, i: nat, j: nat)
    requires Canonical(t, basics)
    requires 1 <= i < |t| && j < Width(t) - 1 && t[i][j] != 0.0
    ensures Canonical(Pivoted(t, i, j), basics[i - 1 := j])
  {
    var u := Pivoted(t, i, j);
    var b := basics[i - 1 := j];
    PivotedColumns(t, i, j);
    forall k | 0 <= k < |b|
      ensures b[k] < Width(u) - 1 && UnitColumn(u, b[k], k + 1)
    {
      if k != i - 1 {
        assert UnitColumn(t, basics[k], k + 1);
        assert t[i][basics[k]] == 0.0;
      }
    }
  }

  /**
   * The objective row's rhs moves by -t[0][j] times the pivot row's ratio;
   * with a negative entering entry it never decreases when that ratio is
   * non-negative.
   */
  lemma PivotObjectiveRhs(t: Matrix, i: nat, j: nat)
    requires Rect(t) && 1 <= i < |t| && j < Width(t) - 1 && t[i][j] != 0.0
    ensures Pivoted(t, i, j)[0][Width(t) - 1] == t[0][Width(t) - 1] - t[0][j] * Ratio(t, i, j)
    ensures t[0][j] < 0.0 && Ratio(t, i, j) >= 0.0 ==>
              Pivoted(t, i, j)[0][Width(t) - 1] >= t[0][Width(t) - 1]
  {
    var w := Width(t) - 1;
    var p := t[i][j];
    PivotedAt(t, i, j, 0, w);
    assert (-t[0][j] / p) * t[i][w] == -t[0][j] * (t[i][w] / p);
  }

  /** Every constraint row has a non-negative rhs: the basic solution is feasible. */
  predicate Feasible(t: Matrix)
    requires Rect(t) && Width(t) > 0
  {
    forall k :: 1 <= k < |t| ==> t[k][Width(t) - 1] >= 0.0
  }

  /**
   * Where the source's row index is right: with row `k` the first row of
   * least non-negative ratio in column `j`, the selection is row `k` and the
   * pivot keeps a feasible tableau feasible, whenever no ratio above row `k`
   * is negative.
   */
  lemma PivotKeepsFeasible(t: Matrix, i: nat, j: nat, k: nat)
    requires Rect(t) && Width(t) > 0 && Feasible(t) && SelectPivot(t) == Ok((i, j))
    requires 1 <= k < |t| && Ratio(t, k, j) >= 0.0
    requires forall q :: 1 <= q < |t| && Ratio(t, q, j) >= 0.0 ==> Ratio(t, k, j) <= Ratio(t, q, j)
    requires forall q :: 1 <= q < k && Ratio(t, q, j) >= 0.0 ==> Ratio(t, k, j) < Ratio(t, q, j)
    requires forall q :: 1 <= q < k ==> Ratio(t, q, j) >= 0.0
    ensures i == k && Feasible(Pivoted(t, i, j))
  {
    SelectPivotSteps(t);
    FindEnteringRowExact(t, j, k);
    MinRatioKeepsFeasible(t, i, j);
  }

  /**
   * The minimum-ratio test's guarantee: pivoting on a row of least
   * non-negative ratio keeps feasibility, whatever the negative ratios are.
   */
  lemma MinRatioKeepsFeasible(t: Matrix, i: nat, j: nat)
    requires Rect(t) && Width(t) > 0 && Feasible(t) && j < Width(t) && NonZeroColumn(t, j)
    requires 1 <= i < |t| && Ratio(t, i, j) >= 0.0
    requires forall k :: 1 <= k < |t| && Ratio(t, k, j) >= 0.0 ==> Ratio(t, i, j) <= Ratio(t, k, j)
    ensures Feasible(Pivoted(t, i, j))
  {
    forall k | 1 <= k < |t|
      ensures Pivoted(t, i, j)[k][Width(t) - 1] >= 0.0
    {
      PivotedRhs(t, i, j, k);
    }
  }

  /** One constraint row of MinRatioKeepsFeasible. */
  lemma PivotedRhs(t: Matrix, i: nat, j: nat, k: nat)
    requires Rect(t) && 1 <= i < |t| && 1 <= k < |t| && j < Width(t)
    requires t[i][j] != 0.0 && t[k][j] != 0.0 && t[k][Width(t) - 1] >= 0.0
    requires 0.0 <= Ratio(t, i, j)
    requires Ratio(t, k, j) >= 0.0 ==> Ratio(t, i, j) <= Ratio(t, k, j)
    ensures Pivoted(t, i, j)[k][Width(t) - 1] >= 0.0
  {
    var w := Width(t) - 1;
    PivotedAt(t, i, j, k, w);
    if k != i {
      if Ratio(t, k, j) >= 0.0 {
        RhsStaysNonNegative(t[k][j], t[i][j], t[k][w], t[i][w]);
      } else {
        NegativeRatioRhsStaysNonNegative(t[k][j], t[i][j], t[k][w], t[i][w]);
      }
    }
  }

  /**
   * The arithmetic behind MinRatioKeepsFeasible: a row whose ratio is at
   * least the pivot row's keeps a non-negative rhs after the elimination.
   */
  lemma RhsStaysNonNegative(e: real, p: real, rk: real, ri: real)
    requires p != 0.0 && e != 0.0 && rk >= 0.0
    requires 0.0 <= ri / p <= rk / e
    ensures rk + (-e / p) * ri >= 0.0
  {
    var theta, rho := ri / p, rk / e;
    assert (-e / p) * ri == -e * theta;
    assert rk == e * rho;
    if e > 0.0 {
      assert e * theta <= e * rho;
    } else {
      assert e * rho <= 0.0;
      assert rho == 0.0 && theta == 0.0;
    }
  }

  /**
   * A row of negative ratio with a non-negative rhs has a negative entry in
   * the pivot column, so the elimination only adds to its rhs.
   */
  lemma NegativeRatioRhsStaysNonNegative(e: real, p: real, rk: real, ri: real)
    requires p != 0.0 && e != 0.0 && rk >= 0.0
    requires rk / e < 0.0 && ri / p >= 0.0
    ensures rk + (-e / p) * ri >= 0.0
  {
    var theta := ri / p;
    assert (-e / p) * ri == -e * theta;
    assert rk == e * (rk / e);
    assert e < 0.0;
  }
}
