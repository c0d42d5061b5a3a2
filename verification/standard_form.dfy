/**
 * `problem_to_matrix`: validate a problem and assemble the initial tableau
 *
 *     [ signed objective | 0 ... 0          | 0     ]
 *     [ coefs_k          | ±e_k (slack)     | rhs_k ]   k = 0 .. m-1
 *
 * together with the initial basic variables n .. n+m-1 (every slack basic).
 */
module StandardForm {
  import opened Wrappers
  import opened Tableau

  /** The objective: a sense ("max" or "min"; any other text is rejected) and one coefficient per variable. */
  datatype Objective = Objective(kind: string, coefs: seq<real>)

  /** A restriction: coefficients, a relation ("<=" or ">="; any other text is rejected) and a rhs. */
  datatype Restriction = Restriction(kind: string, coefs: seq<real>, rhs: real)

  /** The problem dictionary: `obj` and the list `rests`. */
  datatype Problem = Problem(obj: Objective, rests: seq<Restriction>)

  datatype BuildError = InvalidProblemType | ProblemVarsMismatch | InvalidRestType

  /** The initial tableau and basic-variable list. */
  datatype Start = Start(tableau: Matrix, basics: seq<nat>)

  /** The initial tableau as the mutable matrix the driver pivots in place. */
  datatype Built = Built(tableau: array2<real>, basics: seq<nat>)

  predicate KnownSense(kind: string) {
    kind == "max" || kind == "min"
  }

  predicate KnownRelation(kind: string) {
    kind == "<=" || kind == ">="
  }

  /** Every restriction has as many coefficients as the objective. */
  predicate SameWidth(p: Problem) {
    forall k :: 0 <= k < |p.rests| ==> |p.rests[k].coefs| == |p.obj.coefs|
  }

  predicate KnownRelations(p: Problem) {
    forall k :: 0 <= k < |p.rests| ==> KnownRelation(p.rests[k].kind)
  }

  /** Row 0's coefficients: negated for "max", as given for "min". */
  function SignedObjective(obj: Objective): (row: seq<real>)
    ensures |row| == |obj.coefs|
  {
    if obj.kind == "max" then seq(|obj.coefs|, c requires 0 <= c < |obj.coefs| => -1.0 * obj.coefs[c])
    else obj.coefs
  }

  function Zeros(k: nat): (z: seq<real>)
    ensures |z| == k
  {
    seq(k, _ => 0.0)
  }

  /** The diagonal entry of the slack block: -1 for a ">=" restriction, 1 otherwise. */
  function SlackSign(kind: string): real {
    if kind == ">=" then -1.0 else 1.0
  }

  /** Row k of `shadow`, the identity with the ">=" rows' diagonal negated. */
  function ShadowRow(rests: seq<Restriction>, k: nat): (row: seq<real>)
    requires k < |rests|
    ensures |row| == |rests|
  {
    seq(|rests|, c requires 0 <= c < |rests| => if c == k then SlackSign(rests[k].kind) else 0.0)
  }

  /**
   * The builder, assembled by joins as the source does. Checks come in the
   * source's order: the sense first, then every coefficient count, then
   * every relation.
   */
  function Build(p: Problem): (r: Result<Start, BuildError>)
    ensures r == Err(InvalidProblemType) <==> !KnownSense(p.obj.kind)
    ensures r == Err(ProblemVarsMismatch) <==> KnownSense(p.obj.kind) && !SameWidth(p)
    ensures r == Err(InvalidRestType) <==> KnownSense(p.obj.kind) && SameWidth(p) && !KnownRelations(p)
    ensures r.Ok? ==>
              var t, n, m := r.value.tableau, |p.obj.coefs|, |p.rests|;
              && Rect(t) && |t| == m + 1 && Width(t) == n + m + 1
              && (forall c :: 0 <= c < n ==>
                    t[0][c] == if p.obj.kind == "max" then -p.obj.coefs[c] else p.obj.coefs[c])
              && (forall c :: n <= c < n + m + 1 ==> t[0][c] == 0.0)
              && (forall q, c :: 1 <= q <= m && 0 <= c < n ==> t[q][c] == p.rests[q - 1].coefs[c])
              && (forall q, c :: 1 <= q <= m && n <= c < n + m ==>
                    t[q][c] == if c - n == q - 1 then SlackSign(p.rests[q - 1].kind) else 0.0)
              && (forall q :: 1 <= q <= m ==> t[q][n + m] == p.rests[q - 1].rhs)
    ensures r.Ok? ==>
              && |r.value.basics| == |p.rests|
              && forall k :: 0 <= k < |p.rests| ==> r.value.basics[k] == |p.obj.coefs| + k
  {
    if !KnownSense(p.obj.kind) then Err(InvalidProblemType)
    else if !SameWidth(p) then Err(ProblemVarsMismatch)
    else if !KnownRelations(p) then Err(InvalidRestType)
    else
      var n, m := |p.obj.coefs|, |p.rests|;
      var top := SignedObjective(p.obj) + Zeros(m + 1);
      var coefs := seq(m, k requires 0 <= k < m => p.rests[k].coefs + ShadowRow(p.rests, k) + [p.rests[k].rhs]);
      var basics := seq(m, k requires 0 <= k < m => n + k);
      Ok(Start([top] + coefs, basics))
  }

  /**
   * The all-slack start is in canonical form exactly when every restriction
   * is "<=": a ">=" restriction puts -1, not 1, on its slack's diagonal.
   */
  lemma StartCanonicalIffAllLeq(p: Problem)
    requires Build(p).Ok?
    ensures Canonical(Build(p).value.tableau, Build(p).value.basics) <==>
              forall k :: 0 <= k < |p.rests| ==> p.rests[k].kind == "<="
  {
    var t, basics := Build(p).value.tableau, Build(p).value.basics;
    var n, m := |p.obj.coefs|, |p.rests|;
    if forall k :: 0 <= k < m ==> p.rests[k].kind == "<=" {
      forall k | 0 <= k < m
        ensures basics[k] < Width(t) - 1 && UnitColumn(t, basics[k], k + 1)
      {
        assert basics[k] == n + k;
        forall q | 0 <= q < |t|
          ensures t[q][n + k] == if q == k + 1 then 1.0 else 0.0
        {
          if q > 0 {
            assert t[q][n + k] == if n + k - n == q - 1 then SlackSign(p.rests[q - 1].kind) else 0.0;
          }
        }
      }
    } else {
      var k :| 0 <= k < m && p.rests[k].kind != "<=";
      assert p.rests[k].kind == ">=";
      assert t[k + 1][n + k] == -1.0;
      assert !UnitColumn(t, basics[k], k + 1);
    }
  }

  /**
   * The builder with the source's state: the validation loop, the `shadow`
   * identity whose diagonal is negated in place for ">=" rows, and the joined
   * matrix written into a fresh array.
   */
  method ProblemToMatrix(p: Problem) returns (r: Result<Built, BuildError>)
    ensures r.Err? ==> Build(p) == Err(r.error)
    ensures r.Ok? ==>
              && Build(p).Ok? && fresh(r.value.tableau)
              && Rows(r.value.tableau) == Build(p).value.tableau
              && r.value.basics == Build(p).value.basics
  {
    var row0: seq<real>;
    if p.obj.kind == "max" {
      row0 := seq(|p.obj.coefs|, c requires 0 <= c < |p.obj.coefs| => -1.0 * p.obj.coefs[c]);
    } else if p.obj.kind != "min" {
      return Err(InvalidProblemType);
    } else {
      row0 := p.obj.coefs;
    }
    var n := |row0|;
    var rests := p.rests;
    for k := 0 to |rests|
      invariant forall q :: 0 <= q < k ==> |rests[q].coefs| == n
    {
      if |rests[k].coefs| != n {
        return Err(ProblemVarsMismatch);
      }
    }
    var shadow := MakeShadow(rests);
    if shadow.Err? {
      return Err(shadow.error);
    }
    var a := Assemble(p, row0, shadow.value);
    r := Ok(Built(a, seq(|rests|, k requires 0 <= k < |rests| => n + k)));
  }

  /**
   * `shadow`: the m x m identity, its diagonal set to -1 in place for each
   * ">=" restriction; the first relation that is neither "<=" nor ">="
   * raises.
   */
  method MakeShadow(rests: seq<Restriction>) returns (r: Result<array2<real>, BuildError>)
    ensures r.Err? <==> exists k :: 0 <= k < |rests| && !KnownRelation(rests[k].kind)
    ensures r.Err? ==> r.error == InvalidRestType
    ensures r.Ok? ==>
              && fresh(r.value) && r.value.Length0 == |rests| && r.value.Length1 == |rests|
              && forall q, c :: 0 <= q < |rests| && 0 <= c < |rests| ==>
                   r.value[q, c] == ShadowRow(rests, q)[c]
  {
    var m := |rests|;
    var shadow := new real[m, m]((q: nat, c: nat) => if q == c then 1.0 else 0.0);
    for k := 0 to m
      invariant forall q :: 0 <= q < k ==> KnownRelation(rests[q].kind)
      invariant forall q, c :: 0 <= q < m && 0 <= c < m ==>
                  shadow[q, c] == if q != c then 0.0 else if q < k then SlackSign(rests[q].kind) else 1.0
    {
      if rests[k].kind == ">=" {
        shadow[k, k] := -1.0;
      } else if rests[k].kind != "<=" {
        return Err(InvalidRestType);
      }
    }
    return Ok(shadow);
  }

  /** `matrix.col_join(coefs)`: the objective row over the joined restriction rows, cell by cell. */
  method Assemble(p: Problem, row0: seq<real>, shadow: array2<real>) returns (a: array2<real>)
    requires Build(p).Ok? && row0 == SignedObjective(p.obj)
    requires shadow.Length0 == |p.rests| && shadow.Length1 == |p.rests|
    requires forall q, c :: 0 <= q < |p.rests| && 0 <= c < |p.rests| ==> shadow[q, c] == ShadowRow(p.rests, q)[c]
    ensures fresh(a) && Rows(a) == Build(p).value.tableau
  {
    ghost var t := Build(p).value.tableau;
    var n, m := |row0|, |p.rests|;
    a := new real[m + 1, n + m + 1];
    for c := 0 to n + m + 1
      invariant forall c' :: 0 <= c' < c ==> a[0, c'] == t[0][c']
    {
      a[0, c] := if c < n then row0[c] else 0.0;
    }
    for k := 0 to m
      invariant forall q, c :: 0 <= q <= k && 0 <= c < n + m + 1 ==> a[q, c] == t[q][c]
    {
      var q := k + 1;
      for c := 0 to n + m + 1
        invariant forall q', c' :: 0 <= q' < q && 0 <= c' < n + m + 1 ==> a[q', c'] == t[q'][c']
        invariant forall c' :: 0 <= c' < c ==> a[q, c'] == t[q][c']
      {
        a[q, c] := if c < n then p.rests[k].coefs[c] else if c < n + m then shadow[k, c - n] else p.rests[k].rhs;
      }
    }
    forall q | 0 <= q < m + 1
      ensures Rows(a)[q] == t[q]
    {
      assert forall c :: 0 <= c < n + m + 1 ==> Rows(a)[q][c] == t[q][c];
    }
  }
}
