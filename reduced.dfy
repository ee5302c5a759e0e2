/** `reduced_echelon`, `inverse` and `powi` of src/matrix.rs. The loop of
    `reduced_echelon` is described by `ReduceFrom`, which follows it row by
    row; the lemmas prove that its result is a reduced row echelon form. */
module ReducedForm {
  import opened Matrices
  import opened Kernel
  import opened Elimination
  import opened Derived
  import opened Augmented

  // ---------------------------------------------------------------------
  // Reduced row echelon form

  /** Row `k` is nonzero, its leading entry is 1, and that entry is the
      only nonzero one in its column. */
  ghost predicate IsPivotColumn(m: Matrix, k: nat)
    requires IsRect(m) && k < |m|
  {
    var p := Lead(m[k]);
    p < |m[k]| && m[k][p] == 1.0 && forall i | 0 <= i < |m| && i != k :: m[i][p] == 0.0
  }

  ghost predicate IsReducedRowEchelon(m: Matrix)
  {
    IsRect(m) && IsRowEchelon(m) &&
    forall k | 0 <= k < |m| && Lead(m[k]) < |m[k]| :: IsPivotColumn(m, k)
  }

  /** Row `row` divided by its entry in column `pcol`, that entry then set
      to exactly 1. */
  function Normalized(out: Matrix, row: nat, pcol: nat): (n: Matrix)
    requires |out| > 0 && IsRect(out) && row < |out| && pcol < Cols(out) && out[row][pcol] != 0.0
    ensures HasShape(n, |out|, Cols(out))
  {
    var s := RowScaled(out, row, 1.0 / out[row][pcol]);
    s[row := s[row][pcol := 1.0]]
  }

  /** Row `i` minus its entry in column `pcol` times row `row`, that entry
      then set to exactly 0. */
  function ClearedRow(out: Matrix, row: nat, pcol: nat, i: nat): (r: Vector)
    requires |out| > 0 && IsRect(out) && row < |out| && i < |out| && pcol < Cols(out)
    ensures |r| == |out[i]|
  {
    seq(|out[i]|, c requires 0 <= c < |out[i]| =>
      if c == pcol then 0.0 else out[i][c] + -out[i][pcol] * out[row][c])
  }

  /** Every row above `row` cleared in column `pcol`. */
  function ClearedAbove(out: Matrix, row: nat, pcol: nat): (c: Matrix)
    requires |out| > 0 && IsRect(out) && row < |out| && pcol < Cols(out)
    ensures HasShape(c, |out|, Cols(out))
  {
    seq(|out|, i requires 0 <= i < |out| => if i < row then ClearedRow(out, row, pcol, i) else out[i])
  }

  /** The loop of `reduced_echelon` from the state (`out`, `row`, `pcol`):
      `pcol` moves right past zeros of row `row` (the whole loop ends when
      it runs out of columns); at a nonzero entry the row is normalised and
      the column cleared above it, and the next row starts at the same
      `pcol`. */
  function ReduceFrom(out: Matrix, row: nat, pcol: nat): (r: Matrix)
    requires |out| > 0 && IsRect(out) && row <= |out| && pcol < Cols(out)
    ensures HasShape(r, |out|, Cols(out))
    decreases |out| - row, Cols(out) - pcol
  {
    if row == |out| then out
    else if out[row][pcol] == 0.0 then
      if pcol + 1 >= Cols(out) then out else ReduceFrom(out, row, pcol + 1)
    else ReduceFrom(ClearedAbove(Normalized(out, row, pcol), row, pcol), row + 1, pcol)
  }

  /** What `reduced_echelon` returns for `m`. */
  function ReducedOf(m: Matrix, kind: ScalarKind): (r: Matrix)
    requires |m| > 0 && IsRect(m) && Cols(m) > 0
    ensures HasShape(r, |m|, Cols(m))
  {
    ReduceFrom(EchelonOf(m, kind).m, 0, 0)
  }

  /** The inner loop of `reduced_echelon`: `rowadd(i, row, -out[i][pcol])`
      and an exact zero, for every row `i` above `row`. */
  method ClearAbove(out0: Matrix, row: nat, pcol: nat) returns (out: Matrix)
    requires |out0| > 0 && IsRect(out0) && row < |out0| && pcol < Cols(out0)
    ensures out == ClearedAbove(out0, row, pcol)
  {
    ghost var target := ClearedAbove(out0, row, pcol);
    out := out0;
    for i := 0 to row
      invariant |out| == |out0|
      invariant forall k | 0 <= k < |out0| :: out[k] == if k < i then target[k] else out0[k]
    {
      var r := RowAdd(out, i, row, -out[i][pcol]);
      out := r.value;
      out := out[i := out[i][pcol := 0.0]];
      assert forall c | 0 <= c < |out0[i]| :: out[i][c] == target[i][c];
    }
  }

  /** `rowscale(row, 1 / out[row][pcol])`, then an exact 1 at the pivot. */
  method Normalize(out0: Matrix, row: nat, pcol: nat) returns (out: Matrix)
    requires |out0| > 0 && IsRect(out0) && row < |out0| && pcol < Cols(out0) && out0[row][pcol] != 0.0
    ensures out == Normalized(out0, row, pcol)
  {
    var r := RowScale(out0, row, 1.0 / out0[row][pcol]);
    out := r.value;
    out := out[row := out[row][pcol := 1.0]];
  }

  /** `reduced_echelon`: the echelon form, normalised and cleared above each
      pivot. */
  method ReducedEchelon(m: Matrix, kind: ScalarKind) returns (out: Matrix)
    requires |m| > 0 && IsRect(m) && Cols(m) > 0
    ensures out == ReducedOf(m, kind)
    ensures HasShape(out, |m|, Cols(m)) && IsReducedRowEchelon(out)
  {
    var e, _ := Echelon(m, kind);
    out := ReduceLoop(e);
    ReducedOfIsReduced(m, kind);
  }

  /** The loop of `reduced_echelon` over the rows of the echelon form `e`;
      it returns early once a row runs out of columns. */
  method ReduceLoop(e: Matrix) returns (out: Matrix)
    requires |e| > 0 && IsRect(e) && Cols(e) > 0
    ensures out == ReduceFrom(e, 0, 0)
  {
    out := e;
    var rows, cols := |e|, Cols(e);
    var pcol := 0;
    for row := 0 to rows
      invariant HasShape(out, rows, cols) && pcol < cols
      invariant ReduceFrom(out, row, pcol) == ReduceFrom(e, 0, 0)
    {
      var stop: bool;
      out, pcol, stop := ReduceRow(out, row, pcol);
      if stop {
        return;
      }
    }
  }

  /** One row of `reduced_echelon`: move `pcol` right past zeros (`stop`
      when the columns run out), then normalise the row and clear the
      column above it. */
  method ReduceRow(out0: Matrix, row: nat, pcol0: nat) returns (out: Matrix, pcol: nat, stop: bool)
    requires |out0| > 0 && IsRect(out0) && row < |out0| && pcol0 < Cols(out0)
    ensures HasShape(out, |out0|, Cols(out0)) && pcol < Cols(out0)
    ensures stop ==> out == out0 && pcol == pcol0 && ReduceFrom(out0, row, pcol0) == out0
    ensures !stop ==> ReduceFrom(out, row + 1, pcol) == ReduceFrom(out0, row, pcol0)
  {
    var cols := Cols(out0);
    pcol := pcol0;
    while out0[row][pcol] == 0.0
      invariant pcol < cols
      invariant ReduceFrom(out0, row, pcol) == ReduceFrom(out0, row, pcol0)
      decreases cols - pcol
    {
      pcol := pcol + 1;
      if pcol >= cols {
        return out0, pcol0, true;
      }
    }
    out := Normalize(out0, row, pcol);
    out := ClearAbove(out, row, pcol);
    stop := false;
  }

  // ---------------------------------------------------------------------
  // The loop of `reduced_echelon` reaches a reduced row echelon form

  /** Rows above `row` are finished pivot rows; row `row` has no nonzero
      entry before `pcol`. */
  ghost predicate ReduceInvariant(out: Matrix, row: nat, pcol: nat)
    requires |out| > 0 && IsRect(out)
  {
    row <= |out| && pcol < Cols(out) && IsRowEchelon(out) &&
    (forall k | 0 <= k < row :: IsPivotColumn(out, k)) &&
    (row < |out| ==> Lead(out[row]) >= pcol)
  }

  /** Matrices whose rows have the same lengths and leading columns are
      row echelon forms together. */
  lemma SameLeadsEchelon(a: Matrix, b: Matrix)
    requires SameShape(a, b) && forall k | 0 <= k < |a| :: Lead(a[k]) == Lead(b[k])
    requires IsRowEchelon(a)
    ensures IsRowEchelon(b)
  {
    forall k | 0 < k < |b|
      ensures Lead(b[k]) == |b[k]| || Lead(b[k - 1]) < Lead(b[k])
    {
      assert Lead(a[k]) == |a[k]| || Lead(a[k - 1]) < Lead(a[k]);
    }
  }

  /** Below a nonzero row of a row echelon form, column `Lead` is zero. */
  lemma ZeroBelowLead(m: Matrix, k: nat, i: nat)
    requires |m| > 0 && IsRect(m) && IsRowEchelon(m) && k < i < |m| && Lead(m[k]) < Cols(m)
    ensures m[i][Lead(m[k])] == 0.0
  {
    if Lead(m[i]) < Cols(m) {
      LeadsIncrease(m, k, i);
    }
  }

  lemma NormalizedLeads(out: Matrix, row: nat, pcol: nat)
    requires |out| > 0 && IsRect(out) && row < |out| && pcol < Cols(out) && out[row][pcol] != 0.0
    requires Lead(out[row]) == pcol
    ensures forall k | 0 <= k < |out| :: Lead(Normalized(out, row, pcol)[k]) == Lead(out[k])
    ensures forall k | 0 <= k < |out| && k != row :: Normalized(out, row, pcol)[k] == out[k]
    ensures forall c | 0 <= c < pcol :: Normalized(out, row, pcol)[row][c] == 0.0
    ensures Normalized(out, row, pcol)[row][pcol] == 1.0
  {
    var n := Normalized(out, row, pcol);
    assert forall c | 0 <= c < pcol :: out[row][c] == 0.0;
    LeadIs(n[row], pcol);
  }

  lemma ClearedLeads(n: Matrix, row: nat, pcol: nat)
    requires |n| > 0 && IsRect(n) && row < |n| && pcol < Cols(n)
    requires forall c | 0 <= c < pcol :: n[row][c] == 0.0
    requires forall k | 0 <= k < row :: Lead(n[k]) < pcol
    ensures forall k | 0 <= k < |n| :: Lead(ClearedAbove(n, row, pcol)[k]) == Lead(n[k])
    ensures forall k, c | 0 <= k < row && 0 <= c < pcol :: ClearedAbove(n, row, pcol)[k][c] == n[k][c]
    ensures forall k | row <= k < |n| :: ClearedAbove(n, row, pcol)[k] == n[k]
    ensures forall k | 0 <= k < row :: ClearedAbove(n, row, pcol)[k][pcol] == 0.0
  {
    var c := ClearedAbove(n, row, pcol);
    forall k | 0 <= k < row
      ensures Lead(c[k]) == Lead(n[k])
    {
      LeadAgrees(n[k], c[k], pcol);
    }
  }

  /** One normalise-and-clear step keeps the invariant, one row further. */
  lemma ReducePivotStep(out: Matrix, row: nat, pcol: nat)
    requires |out| > 0 && IsRect(out) && ReduceInvariant(out, row, pcol)
    requires row < |out| && out[row][pcol] != 0.0
    ensures ReduceInvariant(ClearedAbove(Normalized(out, row, pcol), row, pcol), row + 1, pcol)
    ensures forall k | 0 <= k < |out| :: Lead(ClearedAbove(Normalized(out, row, pcol), row, pcol)[k]) == Lead(out[k])
  {
    var n := Normalized(out, row, pcol);
    LeadIs(out[row], pcol);
    NormalizedLeads(out, row, pcol);
    forall k | 0 <= k < row
      ensures Lead(n[k]) < pcol
    {
      LeadsIncrease(out, k, row);
    }
    ClearedLeads(n, row, pcol);
    var c := ClearedAbove(n, row, pcol);
    SameLeadsEchelon(out, c);
    forall k | 0 <= k < row + 1
      ensures IsPivotColumn(c, k)
    {
      var p := Lead(out[k]);
      if k < row {
        assert IsPivotColumn(out, k);
        LeadsIncrease(out, k, row);
        forall i | 0 <= i < |c| && i != k
          ensures c[i][p] == 0.0
        {
          if i == row {
            assert c[i][p] == n[row][p];
          }
        }
      } else {
        forall i | row < i < |c|
          ensures c[i][p] == 0.0
        {
          ZeroBelowLead(out, row, i);
        }
      }
    }
    if row + 1 < |out| {
      assert Lead(out[row + 1]) == |out[row + 1]| || Lead(out[row]) < Lead(out[row + 1]);
    }
  }

  /** A zero at `pcol` moves the search one column right. */
  lemma ReduceSkipStep(out: Matrix, row: nat, pcol: nat)
    requires |out| > 0 && IsRect(out) && ReduceInvariant(out, row, pcol)
    requires row < |out| && out[row][pcol] == 0.0 && pcol + 1 < Cols(out)
    ensures ReduceInvariant(out, row, pcol + 1)
  {
  }

  /** Running out of columns on a zero row: every row below is zero too. */
  lemma ReduceOutOfColumns(out: Matrix, row: nat, pcol: nat)
    requires |out| > 0 && IsRect(out) && ReduceInvariant(out, row, pcol)
    requires row < |out| && out[row][pcol] == 0.0 && pcol + 1 >= Cols(out)
    ensures IsReducedRowEchelon(out)
  {
    assert Lead(out[row]) == Cols(out);
    forall k | row < k < |out| && Lead(out[k]) < |out[k]|
      ensures false
    {
      LeadsIncrease(out, row, k);
    }
  }

  lemma {:induction false} ReduceFromIsReduced(out: Matrix, row: nat, pcol: nat)
    requires |out| > 0 && IsRect(out) && ReduceInvariant(out, row, pcol)
    ensures IsReducedRowEchelon(ReduceFrom(out, row, pcol))
    decreases |out| - row, Cols(out) - pcol
  {
    if row == |out| {
    } else if out[row][pcol] == 0.0 {
      if pcol + 1 >= Cols(out) {
        ReduceOutOfColumns(out, row, pcol);
      } else {
        ReduceSkipStep(out, row, pcol);
        ReduceFromIsReduced(out, row, pcol + 1);
      }
    } else {
      ReducePivotStep(out, row, pcol);
      ReduceFromIsReduced(ClearedAbove(Normalized(out, row, pcol), row, pcol), row + 1, pcol);
    }
  }

  /** `reduced_echelon` returns a reduced row echelon form of the same shape. */
  lemma ReducedOfIsReduced(m: Matrix, kind: ScalarKind)
    requires |m| > 0 && IsRect(m) && Cols(m) > 0
    ensures IsReducedRowEchelon(ReducedOf(m, kind))
  {
    ReduceFromIsReduced(EchelonOf(m, kind).m, 0, 0);
  }

  // ---------------------------------------------------------------------
  // Inverse

  /** Dividing the pivot row by its pivot keeps `r * m == l`. */
  lemma TracksNormalized(x: Matrix, m: Matrix, row: nat, pcol: nat)
    requires Tracks(x, m) && row < |x| && pcol < Cols(m) + |m| && x[row][pcol] != 0.0
    ensures IsRect(x) && Tracks(Normalized(x, row, pcol), m)
  {
    var n, d := Normalized(x, row, pcol), x[row][pcol];
    var coef := seq(|x|, i requires 0 <= i < |x| => if i == row then 1.0 / d - 1.0 else 0.0);
    forall i, c | 0 <= i < |x| && 0 <= c < |x[i]|
      ensures n[i][c] == x[i][c] + coef[i] * x[row][c]
    {
      if i == row {
        assert (1.0 / d) * d == 1.0;
        assert x[row][c] * (1.0 / d) == x[row][c] + (1.0 / d - 1.0) * x[row][c];
      }
    }
    TracksCombination(x, n, m, row, coef);
  }

  /** Clearing above a pivot equal to 1 keeps `r * m == l`. */
  lemma TracksCleared(x: Matrix, m: Matrix, row: nat, pcol: nat)
    requires Tracks(x, m) && row < |x| && pcol < Cols(m) + |m| && x[row][pcol] == 1.0
    ensures IsRect(x) && Tracks(ClearedAbove(x, row, pcol), m)
  {
    var coef := seq(|x|, i requires 0 <= i < |x| => if i < row then -x[i][pcol] else 0.0);
    TracksCombination(x, ClearedAbove(x, row, pcol), m, row, coef);
  }

  lemma {:induction false} ReduceFromTracks(out: Matrix, m: Matrix, row: nat, pcol: nat)
    requires Tracks(out, m) && row <= |out| && pcol < Cols(m) + |m|
    ensures IsRect(out) && Tracks(ReduceFrom(out, row, pcol), m)
    decreases |out| - row, Cols(m) + |m| - pcol
  {
    if row < |out| {
      if out[row][pcol] == 0.0 {
        if pcol + 1 < Cols(out) {
          ReduceFromTracks(out, m, row, pcol + 1);
        }
      } else {
        TracksNormalized(out, m, row, pcol);
        var n := Normalized(out, row, pcol);
        TracksCleared(n, m, row, pcol);
        ReduceFromTracks(ClearedAbove(n, row, pcol), m, row + 1, pcol);
      }
    }
  }

  /** Normalising and clearing never move a leading entry. */
  lemma {:induction false} ReduceFromKeepsLeads(out: Matrix, row: nat, pcol: nat)
    requires |out| > 0 && IsRect(out) && ReduceInvariant(out, row, pcol)
    ensures forall k | 0 <= k < |out| :: Lead(ReduceFrom(out, row, pcol)[k]) == Lead(out[k])
    decreases |out| - row, Cols(out) - pcol
  {
    if row == |out| {
    } else if out[row][pcol] == 0.0 {
      if pcol + 1 < Cols(out) {
        ReduceSkipStep(out, row, pcol);
        ReduceFromKeepsLeads(out, row, pcol + 1);
      }
    } else {
      ReducePivotStep(out, row, pcol);
      ReduceFromKeepsLeads(ClearedAbove(Normalized(out, row, pcol), row, pcol), row + 1, pcol);
    }
  }

  /** In a row echelon form with `n` rows and a nonzero entry at
      (n - 1, n - 1), row `k` leads at column `k`. */
  lemma DiagonalLeads(e: Matrix, n: nat, k: nat)
    requires |e| == n > 0 && IsRect(e) && n <= Cols(e) && IsRowEchelon(e) && e[n - 1][n - 1] != 0.0
    requires k < n
    ensures Lead(e[k]) == k
  {
    assert Lead(e[n - 1]) <= n - 1;
    LeadsIncrease(e, k, n - 1);
    LeadsIncrease(e, 0, k);
  }

  /** A reduced row echelon form whose row `k` leads at column `k`, for
      every `k < n`, starts with the `n`-by-`n` identity. */
  lemma ReducedLeftIdentity(r: Matrix, n: nat)
    requires IsReducedRowEchelon(r) && |r| == n > 0 && n <= Cols(r)
    requires forall k | 0 <= k < n :: Lead(r[k]) == k
    ensures LeftColumns(r, n) == Identity(n)
  {
    forall i | 0 <= i < n
      ensures r[i][..n] == Identity(n)[i]
    {
      forall j | 0 <= j < n
        ensures r[i][j] == Identity(n)[i][j]
      {
        assert IsPivotColumn(r, j);
      }
    }
  }

  /** Reducing an echelon form `[l | r]` with `r * m == l` whose left
      half has a nonzero diagonal turns `r` into a left inverse of `m`. */
  lemma ReducedTracksInverse(e: Matrix, m: Matrix)
    requires Tracks(e, m) && IsSquare(m) && IsRowEchelon(e) && e[|m| - 1][|m| - 1] != 0.0
    ensures IsRect(e) && Cols(e) > 0
    ensures Product(RightColumns(ReduceFrom(e, 0, 0), |m|), m) == Identity(|m|)
  {
    var n := |m|;
    forall k | 0 <= k < n
      ensures Lead(e[k]) == k
    {
      DiagonalLeads(e, n, k);
    }
    ReduceFromIsReduced(e, 0, 0);
    ReduceFromKeepsLeads(e, 0, 0);
    ReduceFromTracks(e, m, 0, 0);
    ReducedLeftIdentity(ReduceFrom(e, 0, 0), n);
  }

  /** `inverse` inverts: whenever `is_invertible` holds, the right half of
      the reduced form of `[m | I]` times `m` is the identity. */
  lemma InverseIsLeftInverse(m: Matrix, kind: ScalarKind)
    requires |m| > 0 && IsRect(m) && Invertible(m, kind)
    ensures Product(InverseOf(m, kind), m) == Identity(|m|)
  {
    var n := |m|;
    var a := Beside(m, Identity(n));
    EchelonTracks(m, kind);
    EchelonLeft(m, kind);
    var e := EchelonOf(a, kind).m;
    assert e[n - 1][n - 1] != 0.0 by {
      assert LeftColumns(e, n)[n - 1] == e[n - 1][..n];
    }
    ReducedTracksInverse(e, m);
    assert InverseOf(m, kind) == RightColumns(ReduceFrom(e, 0, 0), n);
  }

  /** Right half of the reduced form of `m` augmented with the identity. */
  function InverseOf(m: Matrix, kind: ScalarKind): (inv: Matrix)
    requires |m| > 0 && IsRect(m) && IsSquare(m)
    ensures HasShape(inv, |m|, |m|)
  {
    var n := |m|;
    BesideShape(m, Identity(n));
    var r := ReducedOf(Beside(m, Identity(n)), kind);
    seq(n, i requires 0 <= i < n => r[i][n..])
  }

  /** `inverse`: an error unless `is_invertible`, otherwise the right half
      of the reduced form of `[m | I]`. */
  method Inverse(m: Matrix, kind: ScalarKind) returns (r: Result<Matrix>)
    requires |m| > 0 && IsRect(m)
    ensures r.Err? <==> !Invertible(m, kind)
    ensures r.Err? ==> r.msg == "Matrix is not invertible"
    ensures r.Ok? ==> IsSquare(m) && r.value == InverseOf(m, kind)
    ensures r.Ok? ==> Product(r.value, m) == Identity(|m|)
  {
    var invertible := IsInvertible(m, kind);
    if !invertible {
      return Err("Matrix is not invertible");
    }
    var idm := Id(|m|);
    var augmented := AugmentCols(m, idm);
    BesideShape(m, idm);
    var reduced := ReducedEchelon(augmented.value, kind);
    var inverseRows: Matrix := [];
    for i := 0 to |reduced|
      invariant |inverseRows| == i
      invariant forall k | 0 <= k < i :: inverseRows[k] == reduced[k][Cols(m)..]
    {
      inverseRows := inverseRows + [reduced[i][Cols(m)..]];
    }
    r := Ok(inverseRows);
    InverseIsLeftInverse(m, kind);
  }

  // ---------------------------------------------------------------------
  // Integer powers

  lemma MulAtLeast(k: int, d: int)
    requires k >= 1 && d > 0
    ensures k * d >= d
  {
    assert k * d == (k - 1) * d + d;
  }

  lemma DivModUnique(a: int, d: int, x: int, y: int)
    requires d > 0 && 0 <= y < d && a == x * d + y
    ensures a / d == x && a % d == y
  {
    var q, r := a / d, a % d;
    assert a == q * d + r;
    assert x * d - q * d == r - y;
    assert (x - q) * d == x * d - q * d;
    if x > q {
      MulAtLeast(x - q, d);
    } else if x < q {
      MulAtLeast(q - x, d);
    }
  }

  /** The remainder modulo `2 * p` adds `p` to the remainder modulo `p`
      exactly when bit `p` of `a` is set. */
  lemma ModDouble(a: nat, p: nat)
    requires p > 0
    ensures a % (2 * p) == a % p + (if (a / p) % 2 == 1 then p else 0)
  {
    var q, r := a / p, a % p;
    var h, b := q / 2, q % 2;
    assert a == h * (2 * p) + (b * p + r);
    DivModUnique(a, 2 * p, h, b * p + r);
  }

  /** One round of square-and-multiply: doubling `pow2` adds its bit of
      `a` to the remainder, and squares the running power. */
  lemma BinaryPowerStep(base: Matrix, a: nat, p: nat)
    requires |base| > 0 && IsSquareOf(base, |base|) && p >= 1
    ensures Power(base, a % (2 * p)) ==
      if (a / p) % 2 == 1 then Product(Power(base, a % p), Power(base, p)) else Power(base, a % p)
    ensures Power(base, p * 2) == Product(Power(base, p), Power(base, p))
  {
    var r, r2 := a % p, a % (2 * p);
    ModDouble(a, p);
    if (a / p) % 2 == 1 {
      assert r2 == r + p;
      PowerAdd(base, r, p);
    } else {
      assert r2 == r;
    }
    assert p * 2 == p + p;
    PowerAdd(base, p, p);
  }

  /** The square-and-multiply loop of `powi`: `res` collects the powers
      `mult = base^pow2` whose bit is set in `absPower`. */
  method BinaryPower(base: Matrix, absPower: nat) returns (res: Matrix)
    requires |base| > 0 && IsSquareOf(base, |base|)
    ensures res == Power(base, absPower)
  {
    var n := |base|;
    var mult := base;
    res := Id(n);
    var pow2: nat := 1;
    ProductIdentityLeft(base, n);
    assert Power(base, 1) == Product(Identity(n), base);
    while true
      invariant pow2 >= 1 && (pow2 == 1 || pow2 <= absPower)
      invariant mult == Power(base, pow2)
      invariant res == Power(base, absPower % pow2)
      decreases absPower + 1 - pow2
    {
      BinaryPowerStep(base, absPower, pow2);
      if (absPower / pow2) % 2 == 1 {
        res := Mul(res, mult);
      }
      pow2 := pow2 * 2;
      if pow2 > absPower {
        break;
      }
      mult := Mul(mult, mult);
    }
    DivModUnique(absPower, pow2, 0, absPower);
  }

  /** `powi`: binary exponentiation of `m`, or of its inverse for a
      negative power. `abs_power & pow2` is the bit of `abs_power` that
      `pow2` selects. */
  method Powi(m: Matrix, power: int, kind: ScalarKind) returns (r: Result<Matrix>)
    requires |m| > 0 && IsRect(m)
    requires -0x4000_0000_0000_0000 < power < 0x4000_0000_0000_0000
    ensures !IsSquare(m) ==> r == Err("Cannot take powers of non-square matrix")
    ensures IsSquare(m) && power >= 0 ==> r == Ok(Power(m, power))
    ensures IsSquare(m) && power < 0 && !Invertible(m, kind) ==> r == Err("Matrix is not invertible")
    ensures IsSquare(m) && power < 0 && Invertible(m, kind) ==> r == Ok(Power(InverseOf(m, kind), -power))
  {
    if !IsSquare(m) {
      return Err("Cannot take powers of non-square matrix");
    }
    var mult: Matrix;
    if power >= 0 {
      mult := m;
    } else {
      var inv := Inverse(m, kind);
      if inv.Err? {
        return Err(inv.msg);
      }
      mult := inv.value;
    }
    var res := BinaryPower(mult, if power < 0 then -power else power);
    r := Ok(res);
  }
}
