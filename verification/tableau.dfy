/** The outcome of an operation that the source may abort with an exception: a value or an error. */
module Wrappers {
  datatype Result<T, E> = Ok(value: T) | Err(error: E)
}

/**
 * The simplex tableau as a value: a dense matrix of exact rationals, row 0 the
 * objective row, the last column the right-hand sides. The mutable matrix the
 * pivot engine works on is an `array2<real>`; `Rows` reads it as a value.
 */
module Tableau {

  type Matrix = seq<seq<real>>

  /** A non-empty rectangular matrix (every row as wide as row 0). */
  predicate Rect(t: Matrix) {
    |t| > 0 && forall r :: 0 <= r < |t| ==> |t[r]| == |t[0]|
  }

  /** Number of columns, the rhs column included. */
  function Width(t: Matrix): nat
    requires |t| > 0
  {
    |t[0]|
  }

  /** The current contents of a two-dimensional array, row by row. */
  function Rows(a: array2<real>): (t: Matrix)
    reads a
    ensures |t| == a.Length0
    ensures forall r :: 0 <= r < a.Length0 ==> |t[r]| == a.Length1
    ensures forall r, c :: 0 <= r < a.Length0 && 0 <= c < a.Length1 ==> t[r][c] == a[r, c]
    ensures a.Length0 > 0 ==> Rect(t) && Width(t) == a.Length1
  {
    RowsBefore(a, a.Length0)
  }

  /** Rows 0 .. n-1 of the array. */
  function RowsBefore(a: array2<real>, n: nat): (t: Matrix)
    requires n <= a.Length0
    reads a
    ensures |t| == n
    ensures forall r :: 0 <= r < n ==> |t[r]| == a.Length1
    ensures forall r, c :: 0 <= r < n && 0 <= c < a.Length1 ==> t[r][c] == a[r, c]
  {
    if n == 0 then [] else RowsBefore(a, n - 1) + [CellsBefore(a, n - 1, a.Length1)]
  }

  /** Entries 0 .. n-1 of row r of the array. */
  function CellsBefore(a: array2<real>, r: nat, n: nat): (row: seq<real>)
    requires r < a.Length0 && n <= a.Length1
    reads a
    ensures |row| == n
    ensures forall c :: 0 <= c < n ==> row[c] == a[r, c]
  {
    if n == 0 then [] else CellsBefore(a, r, n - 1) + [a[r, n - 1]]
  }

  /** Column `c` of `t` holds 1 in row `row` and 0 in every other row. */
  predicate UnitColumn(t: Matrix, c: nat, row: nat)
    requires Rect(t) && c < Width(t)
  {
    forall r :: 0 <= r < |t| ==> t[r][c] == if r == row then 1.0 else 0.0
  }

  /**
   * Canonical form: one basic variable per constraint row, and the column of
   * `basics[k]` is the unit vector of constraint row k + 1. The rhs column is
   * never basic.
   */
  predicate Canonical(t: Matrix, basics: seq<nat>) {
    && Rect(t)
    && |basics| == |t| - 1
    && forall k :: 0 <= k < |basics| ==>
         basics[k] < Width(t) - 1 && UnitColumn(t, basics[k], k + 1)
  }

  /**
   * Position of the first minimum among the first n entries of `s`, as
   * Python's `min` over `enumerate(...)` keyed on the value picks it: a later
   * element replaces the candidate only when it is strictly smaller.
   */
  function ArgMin(s: seq<real>, n: nat): (k: nat)
    requires 0 < n <= |s|
    ensures k < n
    ensures forall q :: 0 <= q < n ==> s[k] <= s[q]
    ensures forall q :: 0 <= q < k ==> s[k] < s[q]
  {
    if n == 1 then 0
    else
      var k := ArgMin(s, n - 1);
      if s[n - 1] < s[k] then n - 1 else k
  }
}
