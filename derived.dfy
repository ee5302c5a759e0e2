/** Results the kernel of src/matrix.rs derives from the echelon form:
    determinant, invertibility, reduced row echelon form, inverse and
    integer powers. */
module Derived {
  import opened Matrices
  import opened Kernel
  import opened Elimination

  // ---------------------------------------------------------------------
  // Shape of a square row echelon form

  /** Leading columns strictly increase down to any nonzero row, by at
      least one per row. */
  lemma {:induction false} LeadsIncrease(m: Matrix, i: nat, j: nat)
    requires |m| > 0 && IsRect(m) && IsRowEchelon(m)
    requires i <= j < |m| && Lead(m[j]) < Cols(m)
    ensures Lead(m[i]) + (j - i) <= Lead(m[j])
    decreases j - i
  {
    if i < j {
      assert Lead(m[j - 1]) < Lead(m[j]);
      LeadsIncrease(m, i, j - 1);
    }
  }

  /** In a square row echelon form row `k` starts at column `k` or later. */
  lemma {:induction false} LeadNotBeforeDiagonal(m: Matrix, k: nat)
    requires |m| > 0 && HasShape(m, |m|, |m|) && IsRowEchelon(m) && k < |m|
    ensures Lead(m[k]) >= k
  {
    if k > 0 {
      LeadNotBeforeDiagonal(m, k - 1);
    }
  }

  /** A square row echelon form is upper triangular. */
  lemma EchelonIsUpperTriangular(m: Matrix)
    requires |m| > 0 && HasShape(m, |m|, |m|) && IsRowEchelon(m)
    ensures forall i, j | 0 <= j < i < |m| :: m[i][j] == 0.0
  {
    forall i, j | 0 <= j < i < |m|
      ensures m[i][j] == 0.0
    {
      LeadNotBeforeDiagonal(m, i);
    }
  }

  /** In a square row echelon form a nonzero bottom-right entry forces
      every diagonal entry to be nonzero. */
  lemma BottomRightDecidesDiagonal(m: Matrix)
    requires |m| > 0 && HasShape(m, |m|, |m|) && IsRowEchelon(m)
    requires m[|m| - 1][|m| - 1] != 0.0
    ensures forall k | 0 <= k < |m| :: m[k][k] != 0.0
  {
    var n := |m|;
    LeadNotBeforeDiagonal(m, n - 1);
    forall k | 0 <= k < n
      ensures m[k][k] != 0.0
    {
      LeadsIncrease(m, k, n - 1);
      LeadNotBeforeDiagonal(m, k);
    }
  }

  lemma {:induction false} DiagonalProductNonzero(m: Matrix, n: nat)
    requires n <= |m| && forall i | 0 <= i < n :: i < |m[i]| && m[i][i] != 0.0
    ensures DiagonalProduct(m, n) != 0.0
  {
    if n > 0 {
      DiagonalProductNonzero(m, n - 1);
    }
  }

  // ---------------------------------------------------------------------
  // Determinant and invertibility

  function Sign(swaps: nat): real
  {
    if swaps % 2 == 0 then 1.0 else -1.0
  }

  /** `(-1)^swaps` times the product of the diagonal of the echelon form. */
  function Determinant(m: Matrix, kind: ScalarKind): real
    requires |m| > 0 && IsRect(m) && IsSquare(m)
  {
    var e := EchelonOf(m, kind);
    Sign(e.swaps) * DiagonalProduct(e.m, |m|)
  }

  /** `det`: an error for a non-square matrix, otherwise the determinant. */
  method Det(m: Matrix, kind: ScalarKind) returns (r: Result<real>)
    requires |m| > 0 && IsRect(m)
    ensures r.Err? <==> !IsSquare(m)
    ensures r.Err? ==> r.msg == "Non-square matrix has no determinant"
    ensures r.Ok? ==> r.value == Determinant(m, kind)
  {
    if !IsSquare(m) {
      return Err("Non-square matrix has no determinant");
    }
    var matRef, swaps := Echelon(m, kind);
    var determinant := MultiplyDiagonal(matRef, if swaps % 2 == 0 then 1.0 else -1.0);
    r := Ok(determinant);
  }

  /** The loop of `det`: multiply `start` by each diagonal entry in turn. */
  method MultiplyDiagonal(a: Matrix, start: real) returns (d: real)
    requires HasShape(a, |a|, |a|)
    ensures d == start * DiagonalProduct(a, |a|)
  {
    d := start;
    for i := 0 to |a|
      invariant d == start * DiagonalProduct(a, i)
    {
      d := d * a[i][i];
    }
  }

  /** `is_invertible`: square, and the echelon form has a nonzero
      bottom-right entry. */
  predicate Invertible(m: Matrix, kind: ScalarKind)
    requires |m| > 0 && IsRect(m)
  {
    IsSquare(m) && EchelonOf(m, kind).m[|m| - 1][Cols(m) - 1] != 0.0
  }

  /** Looking at the bottom-right entry only is the same as asking for a
      nonzero determinant. */
  lemma InvertibleIffNonzeroDeterminant(m: Matrix, kind: ScalarKind)
    requires |m| > 0 && IsRect(m) && IsSquare(m)
    ensures Invertible(m, kind) <==> Determinant(m, kind) != 0.0
  {
    var e := EchelonOf(m, kind);
    var n := |m|;
    if e.m[n - 1][n - 1] != 0.0 {
      BottomRightDecidesDiagonal(e.m);
      DiagonalProductNonzero(e.m, n);
    } else {
      assert DiagonalProduct(e.m, n) == DiagonalProduct(e.m, n - 1) * 0.0;
    }
  }

  method IsInvertible(m: Matrix, kind: ScalarKind) returns (b: bool)
    requires |m| > 0 && IsRect(m)
    ensures b == Invertible(m, kind)
    ensures b <==> IsSquare(m) && Determinant(m, kind) != 0.0
  {
    if !IsSquare(m) {
      return false;
    }
    var e, _ := Echelon(m, kind);
    b := e[|m| - 1][Cols(m) - 1] != 0.0;
    InvertibleIffNonzeroDeterminant(m, kind);
  }

  // ---------------------------------------------------------------------
  // An upper triangular matrix with a nonzero diagonal is its own echelon
  // form, so its determinant is the product of its own diagonal

  /** Square, zero below the diagonal and nonzero on it. */
  predicate IsTriangularNonsingular(u: Matrix)
  {
    |u| > 0 && HasShape(u, |u|, |u|) &&
    (forall i, j | 0 <= j < i < |u| :: u[i][j] == 0.0) &&
    (forall i | 0 <= i < |u| :: u[i][i] != 0.0)
  }

  lemma PivotRowOfTriangular(u: Matrix, k: nat)
    requires IsTriangularNonsingular(u) && k < |u|
    ensures PivotRow(u, k, k) == k
  {
    var v := Column(u, k);
    assert IsFirstMax(v, k, k);
    FirstMaxUnique(v, k, k, PivotRow(u, k, k));
  }

  lemma EliminatedTriangular(u: Matrix, k: nat)
    requires IsTriangularNonsingular(u) && k < |u|
    ensures Eliminated(u, k, k) == u
  {
    var e := Eliminated(u, k, k);
    forall i | 0 <= i < |u|
      ensures e[i] == u[i]
    {
      if i > k {
        assert forall c | 0 <= c < |u| :: e[i][c] == u[i][c];
      }
    }
  }

  lemma {:induction false} PivotingTriangular(u: Matrix, k: nat)
    requires IsTriangularNonsingular(u) && k <= |u|
    ensures PivotingFrom(u, k, k, 0, true) == Reduced(Reduction(u, 0))
    decreases |u| - k
  {
    if k < |u| {
      PivotRowOfTriangular(u, k);
      EliminatedTriangular(u, k);
      PivotingTriangular(u, k + 1);
    }
  }

  lemma {:induction false} ExactTriangular(u: Matrix, k: nat)
    requires IsTriangularNonsingular(u) && k < |u|
    ensures ExactFrom(u, k, k, 0, false) == Reduced(Reduction(u, 0))
    decreases |u| - k
  {
    if k + 1 < |u| {
      EliminatedTriangular(u, k);
      if k + 2 < |u| {
        ExactTriangular(u, k + 1);
      }
    }
  }

  /** Both echelons leave such a matrix alone with no swaps, so either
      scalar kind's determinant is the product of the matrix's own
      diagonal, whatever the elimination would have done. */
  lemma DeterminantOfTriangular(u: Matrix, kind: ScalarKind)
    requires IsTriangularNonsingular(u)
    ensures EchelonOf(u, kind) == Reduction(u, 0)
    ensures Determinant(u, kind) == DiagonalProduct(u, |u|)
  {
    PivotingTriangular(u, 0);
    ExactTriangular(u, 0);
    assert EchelonOf(u, kind) == Reduction(u, 0);
  }

  /** On such a matrix the exact and the f64 determinant agree. */
  lemma TriangularDeterminantsAgree(u: Matrix)
    requires IsTriangularNonsingular(u)
    ensures Determinant(u, Exact) == Determinant(u, Float) == DiagonalProduct(u, |u|)
  {
    DeterminantOfTriangular(u, Exact);
    DeterminantOfTriangular(u, Float);
  }

  lemma {:induction false} DiagonalProductIdentity(n: nat, k: nat)
    requires k <= n
    ensures DiagonalProduct(Identity(n), k) == 1.0
  {
    if k > 0 {
      DiagonalProductIdentity(n, k - 1);
    }
  }

  /** The identity is such a matrix, so its determinant is 1. */
  lemma DeterminantOfIdentity(n: nat, kind: ScalarKind)
    requires n > 0
    ensures EchelonOf(Identity(n), kind) == Reduction(Identity(n), 0)
    ensures Determinant(Identity(n), kind) == 1.0
  {
    DeterminantOfTriangular(Identity(n), kind);
    DiagonalProductIdentity(n, n);
  }

  /** The early stop of the generic echelon as written costs `det` and
      `is_invertible` their answer: on the cyclic permutation matrix the
      as-written echelon gives determinant 0 and a zero bottom-right entry,
      where the corrected echelon gives determinant 1 and invertibility. */
  lemma ExactAsWrittenMisjudgesInvertible()
    ensures var o := ExactFrom([[0.0, 1.0, 0.0], [0.0, 0.0, 1.0], [1.0, 0.0, 0.0]], 0, 0, 0, true);
      o.Reduced? && Sign(o.r.swaps) * DiagonalProduct(o.r.m, 3) == 0.0 && o.r.m[2][2] == 0.0
    ensures Determinant([[0.0, 1.0, 0.0], [0.0, 0.0, 1.0], [1.0, 0.0, 0.0]], Exact) == 1.0
    ensures Invertible([[0.0, 1.0, 0.0], [0.0, 0.0, 1.0], [1.0, 0.0, 0.0]], Exact)
  {
    ExactAsWrittenStopsEarly();
    DiagonalProductIdentity(3, 3);
  }
}
