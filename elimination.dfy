/** Gaussian elimination to row echelon form, as src/matrix.rs does it:
    the generic `echelon` for exact scalars and the partial-pivoting
    `echelon` specialised to f64. Each loop is described by a functional
    specification that follows it iteration by iteration (`ExactFrom`,
    `PivotingFrom`); the methods are proved to compute exactly that, and
    the lemmas prove what the result is: a row echelon form of the same
    shape, reached with a bounded number of row swaps. */
module Elimination {
  import opened Matrices
  import opened Kernel

  function Abs(x: real): real
  {
    if x < 0.0 then -x else x
  }

  // ---------------------------------------------------------------------
  // Leading entries and the row echelon shape

  /** Index of the first nonzero entry of `row` at or after `c`, or `|row|`. */
  function LeadFrom(row: Vector, c: nat): (l: nat)
    requires c <= |row|
    ensures c <= l <= |row|
    ensures forall k | c <= k < l :: row[k] == 0.0
    ensures l < |row| ==> row[l] != 0.0
    decreases |row| - c
  {
    if c == |row| then |row| else if row[c] != 0.0 then c else LeadFrom(row, c + 1)
  }

  /** Column of the leading (first nonzero) entry; `|row|` for a zero row. */
  function Lead(row: Vector): nat
  {
    LeadFrom(row, 0)
  }

  /** Each nonzero row starts strictly to the right of the row above it;
      zero rows come last. */
  predicate IsRowEchelon(m: Matrix)
  {
    forall k | 0 < k < |m| :: Lead(m[k]) == |m[k]| || Lead(m[k - 1]) < Lead(m[k])
  }

  lemma LeadIs(row: Vector, p: nat)
    requires p <= |row| && forall c | 0 <= c < p :: row[c] == 0.0
    requires p == |row| || row[p] != 0.0
    ensures Lead(row) == p
  {
  }

  lemma LeadAtLeast(row: Vector, p: nat)
    requires p <= |row| && forall c | 0 <= c < p :: row[c] == 0.0
    ensures Lead(row) >= p
  {
  }

  /** Rows of the same length that agree on their first `p` entries have
      the same leading column, if it lies before `p`. */
  lemma LeadAgrees(a: Vector, b: Vector, p: nat)
    requires |a| == |b| && p <= |a| && forall c | 0 <= c < p :: a[c] == b[c]
    requires Lead(a) < p
    ensures Lead(b) == Lead(a)
  {
    LeadIs(b, Lead(a));
  }

  // ---------------------------------------------------------------------
  // One elimination step

  /** Rows below `prow` lose the multiple of row `prow` that clears column
      `pcol`; that entry is then set to an exact zero. Rows up to `prow`
      stay as they are. */
  function Eliminated(out: Matrix, prow: nat, pcol: nat): (e: Matrix)
    requires |out| > 0 && IsRect(out) && prow < |out| && pcol < Cols(out)
    requires out[prow][pcol] != 0.0 || prow + 1 == |out|
    ensures HasShape(e, |out|, Cols(out)) && IsRect(e) && Cols(e) == Cols(out)
  {
    seq(|out|, i requires 0 <= i < |out| => if i <= prow then out[i] else EliminatedRow(out, prow, pcol, i))
  }

  /** Row `i` minus the multiple of row `prow` that clears column `pcol`. */
  function EliminatedRow(out: Matrix, prow: nat, pcol: nat, i: nat): (row: Vector)
    requires |out| > 0 && IsRect(out) && prow < i < |out| && pcol < Cols(out)
    requires out[prow][pcol] != 0.0
    ensures |row| == |out[i]|
  {
    seq(|out[i]|, c requires 0 <= c < |out[i]| =>
      if c == pcol then 0.0 else out[i][c] + -(out[i][pcol] / out[prow][pcol]) * out[prow][c])
  }

  /** One elimination step keeps the shape and the rows up to the pivot,
      clears the pivot column below the pivot, and subtracts from every
      other entry below it the matching multiple of the pivot row. */
  lemma EliminatedClearsColumn(out: Matrix, prow: nat, pcol: nat)
    requires |out| > 0 && IsRect(out) && prow < |out| && pcol < Cols(out)
    requires out[prow][pcol] != 0.0 || prow + 1 == |out|
    ensures var e := Eliminated(out, prow, pcol);
      SameShape(e, out) &&
      (forall i | 0 <= i <= prow :: e[i] == out[i]) &&
      (forall i | prow < i < |out| :: e[i][pcol] == 0.0) &&
      (forall i, c | prow < i < |out| && 0 <= c < |out[i]| && c != pcol ::
        e[i][c] == out[i][c] - (out[i][pcol] / out[prow][pcol]) * out[prow][c])
  {
  }

  /** The inner loop shared by both echelons: `rowadd(i, prow, -mult)` for
      every row `i` below the pivot, then an exact zero under the pivot. */
  method EliminateBelow(out0: Matrix, prow: nat, pcol: nat) returns (out: Matrix)
    requires |out0| > 0 && IsRect(out0) && prow < |out0| && pcol < Cols(out0)
    requires out0[prow][pcol] != 0.0 || prow + 1 == |out0|
    ensures out == Eliminated(out0, prow, pcol)
  {
    ghost var e := Eliminated(out0, prow, pcol);
    out := out0;
    for i := prow + 1 to |out0|
      invariant |out| == |out0|
      invariant forall k | 0 <= k < |out0| :: out[k] == if k < i then e[k] else out0[k]
    {
      var mult := out[i][pcol] / out[prow][pcol];
      var r := RowAdd(out, i, prow, -mult);
      out := r.value;
      out := out[i := out[i][pcol := 0.0]];
      assert forall c | 0 <= c < |out0[i]| :: out[i][c] == e[i][c];
    }
  }

  // ---------------------------------------------------------------------
  // Pivot choice of the partial-pivoting echelon

  /** `b` is the first index at or after `lo` whose entry has the largest
      magnitude among `v[lo..]`. */
  ghost predicate IsFirstMax(v: Vector, lo: nat, b: nat)
  {
    lo <= b < |v| &&
    (forall k | lo <= k < |v| :: Abs(v[k]) <= Abs(v[b])) &&
    (forall k | lo <= k < b :: Abs(v[k]) < Abs(v[b]))
  }

  lemma FirstMaxUnique(v: Vector, lo: nat, b1: nat, b2: nat)
    requires IsFirstMax(v, lo, b1) && IsFirstMax(v, lo, b2)
    ensures b1 == b2
  {
    assert Abs(v[b1]) == Abs(v[b2]);
  }

  /** The scan `for i in lo..` keeping the first row whose entry has the
      largest magnitude: `best` moves only on a strictly larger nonzero. */
  function FirstMaxAbs(v: Vector, lo: nat, i: nat, best: nat): (b: nat)
    requires lo <= best <= i <= |v| && best < |v|
    requires forall k | lo <= k < i :: Abs(v[k]) <= Abs(v[best])
    requires forall k | lo <= k < best :: Abs(v[k]) < Abs(v[best])
    ensures IsFirstMax(v, lo, b)
    decreases |v| - i
  {
    if i == |v| then best
    else FirstMaxAbs(v, lo, i + 1, if v[i] != 0.0 && Abs(v[i]) > Abs(v[best]) then i else best)
  }

  /** Row chosen as pivot for column `pcol` among rows `prow..`. */
  function PivotRow(out: Matrix, prow: nat, pcol: nat): (p: nat)
    requires prow < |out| && forall i | 0 <= i < |out| :: pcol < |out[i]|
    ensures IsFirstMax(Column(out, pcol), prow, p)
  {
    FirstMaxAbs(Column(out, pcol), prow, prow, prow)
  }

  /** The pivot search of the f64 echelon: `maxLeading` is the first row at
      or below `prow` whose entry in column `pcol` has the largest
      magnitude; `found` says whether any of those entries is nonzero. */
  method MaxLeading(out: Matrix, prow: nat, pcol: nat) returns (maxLeading: nat, found: bool)
    requires prow < |out| && forall i | 0 <= i < |out| :: pcol < |out[i]|
    ensures maxLeading == PivotRow(out, prow, pcol) && IsFirstMax(Column(out, pcol), prow, maxLeading)
    ensures found <==> exists i | prow <= i < |out| :: out[i][pcol] != 0.0
    ensures found <==> out[maxLeading][pcol] != 0.0
  {
    ghost var v := Column(out, pcol);
    maxLeading := prow;
    found := false;
    for i := prow to |out|
      invariant prow <= maxLeading < |out| && maxLeading <= i
      invariant forall k | prow <= k < i :: Abs(v[k]) <= Abs(v[maxLeading])
      invariant forall k | prow <= k < maxLeading :: Abs(v[k]) < Abs(v[maxLeading])
      invariant found <==> (i > prow && v[maxLeading] != 0.0)
    {
      if out[i][pcol] != 0.0 {
        found := true;
        if Abs(out[i][pcol]) > Abs(out[maxLeading][pcol]) {
          maxLeading := i;
        }
      }
    }
    if !found {
      forall k | prow <= k < |out|
        ensures out[k][pcol] == 0.0
      {
        assert Abs(v[k]) <= Abs(v[maxLeading]);
      }
    }
    FirstMaxUnique(v, prow, maxLeading, PivotRow(out, prow, pcol));
  }

  // ---------------------------------------------------------------------
  // The partial-pivoting echelon, and the older `REF` it grew out of

  /** Result of running an elimination loop. `ZeroDivisor` marks the
      iteration that would divide by a zero pivot. */
  datatype Reduction = Reduction(m: Matrix, swaps: nat)
  datatype Outcome = Reduced(r: Reduction) | ZeroDivisor(row: nat, col: nat)

  /** The `while prow < rows && pcol < cols` loop from the state
      (`out`, `prow`, `pcol`, `swaps`). With `skipZeroColumns` an all-zero
      column below `prow` is passed over; without it (the older `REF`, whose
      emptiness test can never fire) the loop eliminates with a zero pivot. */
  function PivotingFrom(out: Matrix, prow: nat, pcol: nat, swaps: nat, skipZeroColumns: bool): (o: Outcome)
    requires |out| > 0 && IsRect(out) && prow <= |out| && pcol <= Cols(out)
    ensures o.Reduced? ==> HasShape(o.r.m, |out|, Cols(out))
    ensures o.Reduced? ==> swaps <= o.r.swaps <= swaps + (|out| - prow)
    ensures o.Reduced? ==> o.r.swaps <= swaps + (Cols(out) - pcol)
    decreases Cols(out) - pcol
  {
    if prow == |out| || pcol == Cols(out) then Reduced(Reduction(out, swaps))
    else
      var piv := PivotRow(out, prow, pcol);
      if skipZeroColumns && out[piv][pcol] == 0.0 then
        PivotingFrom(out, prow, pcol + 1, swaps, skipZeroColumns)
      else
        var out1 := if piv != prow then RowSwapped(out, prow, piv) else out;
        var swaps1 := if piv != prow then swaps + 1 else swaps;
        if out1[prow][pcol] == 0.0 && prow + 1 < |out| then ZeroDivisor(prow, pcol)
        else PivotingFrom(Eliminated(out1, prow, pcol), prow + 1, pcol + 1, swaps1, skipZeroColumns)
  }

  /** The rows from `prow` down are zero in column `pcol`. */
  lemma PivotingSkipStep(out: Matrix, prow: nat, pcol: nat, swaps: nat)
    requires |out| > 0 && IsRect(out) && prow < |out| && pcol < Cols(out)
    requires out[PivotRow(out, prow, pcol)][pcol] == 0.0
    ensures PivotingFrom(out, prow, pcol, swaps, true) == PivotingFrom(out, prow, pcol + 1, swaps, true)
  {
  }

  /** A nonzero pivot is swapped up (if needed) and eliminated below. */
  lemma PivotingPivotStep(out: Matrix, prow: nat, pcol: nat, swaps: nat, skip: bool)
    requires |out| > 0 && IsRect(out) && prow < |out| && pcol < Cols(out)
    requires out[PivotRow(out, prow, pcol)][pcol] != 0.0
    ensures var piv := PivotRow(out, prow, pcol);
      var out1 := if piv != prow then RowSwapped(out, prow, piv) else out;
      IsRect(out1) && out1[prow][pcol] != 0.0 &&
      PivotingFrom(out, prow, pcol, swaps, skip) ==
      PivotingFrom(Eliminated(out1, prow, pcol), prow + 1, pcol + 1, if piv != prow then swaps + 1 else swaps, skip)
  {
  }

  /** A zero entry of largest magnitude means the whole column is zero
      from `prow` down. */
  lemma PivotZeroMeansColumnZero(out: Matrix, prow: nat, pcol: nat)
    requires prow < |out| && forall i | 0 <= i < |out| :: pcol < |out[i]|
    requires out[PivotRow(out, prow, pcol)][pcol] == 0.0
    ensures forall k | prow <= k < |out| :: out[k][pcol] == 0.0
  {
    var v := Column(out, pcol);
    forall k | prow <= k < |out|
      ensures out[k][pcol] == 0.0
    {
      assert Abs(v[k]) <= Abs(v[PivotRow(out, prow, pcol)]);
    }
  }

  /** `echelon` for f64: partial pivoting, one column per iteration. */
  method EchelonPivoting(m: Matrix) returns (out: Matrix, swaps: nat)
    requires |m| > 0 && IsRect(m)
    ensures PivotingFrom(m, 0, 0, 0, true) == Reduced(Reduction(out, swaps))
  {
    out := m;
    var rows, cols := |m|, Cols(m);
    var prow: nat, pcol: nat := 0, 0;
    swaps := 0;
    while prow < rows && pcol < cols
      invariant HasShape(out, rows, cols) && prow <= rows && pcol <= cols
      invariant PivotingFrom(out, prow, pcol, swaps, true) == PivotingFrom(m, 0, 0, 0, true)
      decreases cols - pcol
    {
      out, prow, swaps := PivotingStep(out, prow, pcol, swaps);
      pcol := pcol + 1;
    }
  }

  /** One iteration of the partial-pivoting loop: skip a column that is
      zero from `prow` down, or swap the pivot up and eliminate below it. */
  method PivotingStep(out0: Matrix, prow0: nat, pcol: nat, swaps0: nat) returns (out: Matrix, prow: nat, swaps: nat)
    requires |out0| > 0 && IsRect(out0) && prow0 < |out0| && pcol < Cols(out0)
    ensures HasShape(out, |out0|, Cols(out0)) && prow <= |out0|
    ensures PivotingFrom(out, prow, pcol + 1, swaps, true) == PivotingFrom(out0, prow0, pcol, swaps0, true)
  {
    var maxLeading, found := MaxLeading(out0, prow0, pcol);
    if !found {
      PivotingSkipStep(out0, prow0, pcol, swaps0);
      return out0, prow0, swaps0;
    }
    PivotingPivotStep(out0, prow0, pcol, swaps0, true);
    ghost var out1 := if maxLeading != prow0 then RowSwapped(out0, prow0, maxLeading) else out0;
    out, swaps := out0, swaps0;
    if prow0 != maxLeading {
      var r := RowSwap(out0, prow0, maxLeading);
      out := r.value;
      swaps := swaps0 + 1;
    }
    assert out == out1;
    out := EliminateBelow(out, prow0, pcol);
    prow := prow0 + 1;
  }

  // ---------------------------------------------------------------------
  // The generic echelon

  /** First row at or after `i` with a nonzero entry in column `pcol`, or
      `|out|` when there is none. */
  function FirstNonzeroBelow(out: Matrix, pcol: nat, i: nat): (r: nat)
    requires i <= |out| && forall k | 0 <= k < |out| :: pcol < |out[k]|
    ensures i <= r <= |out|
    ensures forall k | i <= k < r :: out[k][pcol] == 0.0
    ensures r < |out| ==> out[r][pcol] != 0.0
    decreases |out| - i
  {
    if i == |out| then |out| else if out[i][pcol] != 0.0 then i else FirstNonzeroBelow(out, pcol, i + 1)
  }

  /** Row holding the pivot for column `pcol`: `prow` itself when its entry
      is nonzero, else the first row below with a nonzero entry; `|out|`
      when the column is zero from `prow` down. */
  function PivotBelow(out: Matrix, prow: nat, pcol: nat): (r: nat)
    requires prow < |out| && forall k | 0 <= k < |out| :: pcol < |out[k]|
    ensures prow <= r <= |out|
    ensures r < |out| ==> out[r][pcol] != 0.0
    ensures r == |out| <==> forall k | prow <= k < |out| :: out[k][pcol] == 0.0
  {
    if out[prow][pcol] != 0.0 then prow else FirstNonzeroBelow(out, pcol, prow + 1)
  }

  /** The `for pcol in ..` loop of the generic echelon from the state
      (`out`, `prow`, `pcol`, `swaps`): find the pivot, skipping the column
      when there is none, else swap it into row `prow` and go on with
      `ExactEliminate`. `movePivotRow` is the code as written, which also
      moves `prow` to the row the old entry was swapped into. */
  function ExactFrom(out: Matrix, prow: nat, pcol: nat, swaps: nat, movePivotRow: bool): (o: Outcome)
    requires |out| > 0 && IsRect(out) && prow < |out| && pcol <= Cols(out)
    ensures o.Reduced? ==> HasShape(o.r.m, |out|, Cols(out))
    ensures o.Reduced? ==> swaps <= o.r.swaps <= swaps + (Cols(out) - pcol)
    ensures o.Reduced? ==> o.r.swaps <= swaps + (|out| - prow)
    decreases Cols(out) - pcol, 1
  {
    if pcol == Cols(out) then Reduced(Reduction(out, swaps))
    else
      var below := PivotBelow(out, prow, pcol);
      if below == |out| then ExactFrom(out, prow, pcol + 1, swaps, movePivotRow)
      else if below == prow then ExactEliminate(out, prow, pcol, swaps, movePivotRow)
      else ExactEliminate(RowSwapped(out, prow, below), if movePivotRow then below else prow, pcol, swaps + 1, movePivotRow)
  }

  /** The rest of one iteration once the pivot is in place: stop on the
      last row, else clear the column below `prow` (a zero divisor here is
      reported), step `prow` and stop if it reached the last row. */
  function ExactEliminate(out: Matrix, prow: nat, pcol: nat, swaps: nat, movePivotRow: bool): (o: Outcome)
    requires |out| > 0 && IsRect(out) && prow < |out| && pcol < Cols(out)
    ensures o.Reduced? ==> HasShape(o.r.m, |out|, Cols(out))
    ensures o.Reduced? ==> swaps <= o.r.swaps <= swaps + (Cols(out) - pcol - 1)
    ensures o.Reduced? ==> o.r.swaps <= swaps + (|out| - prow - 1)
    decreases Cols(out) - pcol, 0
  {
    if prow == |out| - 1 then Reduced(Reduction(out, swaps))
    else if out[prow][pcol] == 0.0 then ZeroDivisor(prow, pcol)
    else
      var out2 := Eliminated(out, prow, pcol);
      if prow + 1 == |out| - 1 then Reduced(Reduction(out2, swaps))
      else ExactFrom(out2, prow + 1, pcol + 1, swaps, movePivotRow)
  }

  lemma ExactSkipStep(out: Matrix, prow: nat, pcol: nat, swaps: nat, movePivotRow: bool)
    requires |out| > 0 && IsRect(out) && prow < |out| && pcol < Cols(out)
    requires PivotBelow(out, prow, pcol) == |out|
    ensures ExactFrom(out, prow, pcol, swaps, movePivotRow) == ExactFrom(out, prow, pcol + 1, swaps, movePivotRow)
  {
  }

  lemma ExactEliminateStep(out: Matrix, prow: nat, pcol: nat, swaps: nat, movePivotRow: bool)
    requires |out| > 0 && IsRect(out) && prow < |out| - 1 && pcol < Cols(out) && out[prow][pcol] != 0.0
    ensures ExactEliminate(out, prow, pcol, swaps, movePivotRow) ==
      if prow + 1 == |out| - 1 then Reduced(Reduction(Eliminated(out, prow, pcol), swaps))
      else ExactFrom(Eliminated(out, prow, pcol), prow + 1, pcol + 1, swaps, movePivotRow)
  {
  }

  /** The generic echelon exactly as written, `prow = i` after a swap
      included; it stops at the division by a zero pivot, if one comes. */
  method EchelonExactAsWritten(m: Matrix) returns (o: Outcome)
    requires |m| > 0 && IsRect(m)
    ensures o == ExactFrom(m, 0, 0, 0, true)
  {
    o := EchelonExactLoop(m, true);
  }

  /** The generic echelon with the pivot row kept after a swap. */
  method EchelonExact(m: Matrix) returns (out: Matrix, swaps: nat)
    requires |m| > 0 && IsRect(m)
    ensures ExactFrom(m, 0, 0, 0, false) == Reduced(Reduction(out, swaps))
  {
    ExactReachesEchelon(m, 0, 0, 0);
    var o := EchelonExactLoop(m, false);
    out, swaps := o.r.m, o.r.swaps;
  }

  /** The search for a nonzero entry at or below `prow` in column `pcol`,
      with the swap that brings it up. */
  method FindPivot(out0: Matrix, prow0: nat, pcol: nat, swaps0: nat, movePivotRow: bool)
    returns (pivot: bool, out: Matrix, prow: nat, swaps: nat)
    requires |out0| > 0 && IsRect(out0) && prow0 < |out0| && pcol < Cols(out0)
    ensures pivot <==> PivotBelow(out0, prow0, pcol) < |out0|
    ensures !pivot ==> out == out0 && prow == prow0 && swaps == swaps0
    ensures pivot ==> IsRect(out) && prow < |out| == |out0| && Cols(out) == Cols(out0)
    ensures pivot ==> ExactFrom(out0, prow0, pcol, swaps0, movePivotRow) == ExactEliminate(out, prow, pcol, swaps, movePivotRow)
  {
    out, prow, swaps := out0, prow0, swaps0;
    if out[prow][pcol] != 0.0 {
      return true, out, prow, swaps;
    }
    pivot := false;
    for i := prow + 1 to |out0|
      invariant FirstNonzeroBelow(out0, pcol, prow0 + 1) == FirstNonzeroBelow(out0, pcol, i)
    {
      if out[i][pcol] != 0.0 {
        var r := RowSwap(out, prow, i);
        out := r.value;
        swaps := swaps + 1;
        if movePivotRow {
          prow := i;
        }
        pivot := true;
        break;
      }
    }
  }

  /** The part of an iteration after the pivot is in place: `stop` with
      the loop's result on the last row or at a zero divisor, otherwise the
      state for the next column. */
  method EliminateStep(out0: Matrix, prow0: nat, pcol: nat, swaps: nat, movePivotRow: bool)
    returns (stop: bool, result: Outcome, out: Matrix, prow: nat)
    requires |out0| > 0 && IsRect(out0) && prow0 < |out0| && pcol < Cols(out0)
    ensures stop ==> result == ExactEliminate(out0, prow0, pcol, swaps, movePivotRow)
    ensures !stop ==> HasShape(out, |out0|, Cols(out0)) && prow < |out0| && pcol + 1 <= Cols(out0)
    ensures !stop ==> ExactEliminate(out0, prow0, pcol, swaps, movePivotRow) == ExactFrom(out, prow, pcol + 1, swaps, movePivotRow)
  {
    out, prow := out0, prow0;
    result := Reduced(Reduction(out, swaps));
    if prow == |out0| - 1 {
      return true, result, out, prow;
    }
    if out[prow][pcol] == 0.0 {
      return true, ZeroDivisor(prow, pcol), out, prow;
    }
    ExactEliminateStep(out, prow, pcol, swaps, movePivotRow);
    out := EliminateBelow(out, prow, pcol);
    prow := prow + 1;
    stop := prow == |out0| - 1;
    result := Reduced(Reduction(out, swaps));
  }

  method EchelonExactLoop(m: Matrix, movePivotRow: bool) returns (o: Outcome)
    requires |m| > 0 && IsRect(m)
    ensures o == ExactFrom(m, 0, 0, 0, movePivotRow)
  {
    var out := m;
    var rows, cols := |m|, Cols(m);
    var prow: nat, swaps: nat := 0, 0;
    for pcol := 0 to cols
      invariant HasShape(out, rows, cols) && prow < rows
      invariant ExactFrom(out, prow, pcol, swaps, movePivotRow) == ExactFrom(m, 0, 0, 0, movePivotRow)
    {
      var pivot;
      ghost var pre, preRow := out, prow;
      pivot, out, prow, swaps := FindPivot(out, prow, pcol, swaps, movePivotRow);
      if !pivot {
        ExactSkipStep(pre, preRow, pcol, swaps, movePivotRow);
        continue;
      }
      var stop, result;
      stop, result, out, prow := EliminateStep(out, prow, pcol, swaps, movePivotRow);
      if stop {
        return result;
      }
    }
    o := Reduced(Reduction(out, swaps));
  }

  // ---------------------------------------------------------------------
  // Both loops reach a row echelon form

  /** Loop invariant of every echelon: rows above `prow` are finished,
      their leading columns increase and lie before `pcol`, and the rows
      from `prow` down are zero in every column before `pcol`. */
  ghost predicate Staircase(out: Matrix, prow: nat, pcol: nat)
    requires |out| > 0 && IsRect(out)
  {
    prow <= |out| && pcol <= Cols(out) &&
    (forall k, c | prow <= k < |out| && 0 <= c < pcol :: out[k][c] == 0.0) &&
    (forall k | 0 <= k < prow :: Lead(out[k]) < pcol) &&
    (forall k | 0 < k < prow :: Lead(out[k - 1]) < Lead(out[k]))
  }

  lemma StaircaseStart(m: Matrix)
    requires |m| > 0 && IsRect(m)
    ensures Staircase(m, 0, 0)
  {
  }

  lemma StaircaseDone(out: Matrix, prow: nat, pcol: nat)
    requires |out| > 0 && IsRect(out) && Staircase(out, prow, pcol)
    requires prow + 1 >= |out| || pcol == Cols(out)
    ensures IsRowEchelon(out)
  {
    forall k | 0 < k < |out|
      ensures Lead(out[k]) == |out[k]| || Lead(out[k - 1]) < Lead(out[k])
    {
      if k >= prow {
        LeadAtLeast(out[k], pcol);
      }
    }
  }

  lemma StaircaseSkip(out: Matrix, prow: nat, pcol: nat)
    requires |out| > 0 && IsRect(out) && Staircase(out, prow, pcol) && pcol < Cols(out)
    requires forall k | prow <= k < |out| :: out[k][pcol] == 0.0
    ensures Staircase(out, prow, pcol + 1)
  {
  }

  lemma StaircaseSwap(out: Matrix, prow: nat, pcol: nat, k: nat)
    requires |out| > 0 && IsRect(out) && Staircase(out, prow, pcol) && prow <= k < |out|
    ensures IsRect(RowSwapped(out, prow, k)) && Staircase(RowSwapped(out, prow, k), prow, pcol)
  {
  }

  lemma StaircaseEliminate(out: Matrix, prow: nat, pcol: nat)
    requires |out| > 0 && IsRect(out) && Staircase(out, prow, pcol)
    requires prow < |out| && pcol < Cols(out) && out[prow][pcol] != 0.0
    ensures IsRect(Eliminated(out, prow, pcol)) && Staircase(Eliminated(out, prow, pcol), prow + 1, pcol + 1)
  {
    var e := Eliminated(out, prow, pcol);
    EliminatedClearsColumn(out, prow, pcol);
    LeadIs(out[prow], pcol);
    forall k, c | prow + 1 <= k < |e| && 0 <= c < pcol + 1
      ensures e[k][c] == 0.0
    {
      if c != pcol {
        var mult := out[k][pcol] / out[prow][pcol];
        assert out[k][c] == 0.0 && out[prow][c] == 0.0;
        assert e[k][c] == 0.0 - mult * 0.0;
      }
    }
  }

  /** The partial-pivoting loop never meets a zero pivot and ends in a row
      echelon form. */
  lemma {:induction false} PivotingReachesEchelon(out: Matrix, prow: nat, pcol: nat, swaps: nat)
    requires |out| > 0 && IsRect(out) && Staircase(out, prow, pcol)
    ensures PivotingFrom(out, prow, pcol, swaps, true).Reduced?
    ensures IsRowEchelon(PivotingFrom(out, prow, pcol, swaps, true).r.m)
    decreases Cols(out) - pcol, 2
  {
    if prow == |out| || pcol == Cols(out) {
      StaircaseDone(out, prow, pcol);
    } else if out[PivotRow(out, prow, pcol)][pcol] == 0.0 {
      PivotingSkipReachesEchelon(out, prow, pcol, swaps);
    } else {
      PivotingPivotReachesEchelon(out, prow, pcol, swaps);
    }
  }

  lemma {:induction false} PivotingSkipReachesEchelon(out: Matrix, prow: nat, pcol: nat, swaps: nat)
    requires |out| > 0 && IsRect(out) && Staircase(out, prow, pcol) && prow < |out| && pcol < Cols(out)
    requires out[PivotRow(out, prow, pcol)][pcol] == 0.0
    ensures PivotingFrom(out, prow, pcol, swaps, true).Reduced?
    ensures IsRowEchelon(PivotingFrom(out, prow, pcol, swaps, true).r.m)
    decreases Cols(out) - pcol, 0
  {
    PivotZeroMeansColumnZero(out, prow, pcol);
    StaircaseSkip(out, prow, pcol);
    PivotingSkipStep(out, prow, pcol, swaps);
    PivotingReachesEchelon(out, prow, pcol + 1, swaps);
  }

  lemma {:induction false} PivotingPivotReachesEchelon(out: Matrix, prow: nat, pcol: nat, swaps: nat)
    requires |out| > 0 && IsRect(out) && Staircase(out, prow, pcol) && prow < |out| && pcol < Cols(out)
    requires out[PivotRow(out, prow, pcol)][pcol] != 0.0
    ensures PivotingFrom(out, prow, pcol, swaps, true).Reduced?
    ensures IsRowEchelon(PivotingFrom(out, prow, pcol, swaps, true).r.m)
    decreases Cols(out) - pcol, 1
  {
    var piv := PivotRow(out, prow, pcol);
    PivotingPivotStep(out, prow, pcol, swaps, true);
    PivotedStaircase(out, prow, pcol, piv);
    var out1 := if piv != prow then RowSwapped(out, prow, piv) else out;
    PivotingContinues(out, prow, pcol, swaps, Eliminated(out1, prow, pcol), if piv != prow then swaps + 1 else swaps);
  }

  /** The step after a pivot: the loop goes on from a longer staircase. */
  lemma {:induction false} PivotingContinues(out: Matrix, prow: nat, pcol: nat, swaps: nat, next: Matrix, swaps1: nat)
    requires |out| > 0 && IsRect(out) && prow <= |out| && pcol < Cols(out)
    requires |next| == |out| && IsRect(next) && Cols(next) == Cols(out) && Staircase(next, prow + 1, pcol + 1)
    requires PivotingFrom(out, prow, pcol, swaps, true) == PivotingFrom(next, prow + 1, pcol + 1, swaps1, true)
    ensures PivotingFrom(out, prow, pcol, swaps, true).Reduced?
    ensures IsRowEchelon(PivotingFrom(out, prow, pcol, swaps, true).r.m)
    decreases Cols(out) - pcol, 0
  {
    PivotingReachesEchelon(next, prow + 1, pcol + 1, swaps1);
  }

  /** Swapping the pivot up and eliminating below it extends the staircase
      by one step. */
  lemma PivotedStaircase(out: Matrix, prow: nat, pcol: nat, piv: nat)
    requires |out| > 0 && IsRect(out) && Staircase(out, prow, pcol) && prow <= piv < |out| && pcol < Cols(out)
    requires out[piv][pcol] != 0.0
    ensures var out1 := if piv != prow then RowSwapped(out, prow, piv) else out;
      IsRect(out1) && out1[prow][pcol] != 0.0 &&
      IsRect(Eliminated(out1, prow, pcol)) && Staircase(Eliminated(out1, prow, pcol), prow + 1, pcol + 1)
  {
    var out1 := if piv != prow then RowSwapped(out, prow, piv) else out;
    if piv != prow {
      StaircaseSwap(out, prow, pcol, piv);
    }
    StaircaseEliminate(out1, prow, pcol);
  }

  /** The generic loop, with the pivot row kept after a swap, never meets
      a zero pivot and ends in a row echelon form. */
  lemma {:induction false} ExactReachesEchelon(out: Matrix, prow: nat, pcol: nat, swaps: nat)
    requires |out| > 0 && IsRect(out) && prow < |out| && Staircase(out, prow, pcol)
    ensures ExactFrom(out, prow, pcol, swaps, false).Reduced?
    ensures IsRowEchelon(ExactFrom(out, prow, pcol, swaps, false).r.m)
    decreases Cols(out) - pcol, 1
  {
    if pcol == Cols(out) {
      StaircaseDone(out, prow, pcol);
    } else {
      var below := PivotBelow(out, prow, pcol);
      if below == |out| {
        StaircaseSkip(out, prow, pcol);
        ExactReachesEchelon(out, prow, pcol + 1, swaps);
      } else {
        StaircaseSwap(out, prow, pcol, below);
        if below == prow {
          ExactEliminateReachesEchelon(out, prow, pcol, swaps);
        } else {
          ExactEliminateReachesEchelon(RowSwapped(out, prow, below), prow, pcol, swaps + 1);
        }
      }
    }
  }

  lemma {:induction false} ExactEliminateReachesEchelon(out: Matrix, prow: nat, pcol: nat, swaps: nat)
    requires |out| > 0 && IsRect(out) && prow < |out| && pcol < Cols(out) && Staircase(out, prow, pcol)
    requires out[prow][pcol] != 0.0
    ensures ExactEliminate(out, prow, pcol, swaps, false).Reduced?
    ensures IsRowEchelon(ExactEliminate(out, prow, pcol, swaps, false).r.m)
    decreases Cols(out) - pcol, 0
  {
    if prow == |out| - 1 {
      StaircaseDone(out, prow, pcol);
    } else {
      StaircaseEliminate(out, prow, pcol);
      var out2 := Eliminated(out, prow, pcol);
      if prow + 1 == |out| - 1 {
        StaircaseDone(out2, prow + 1, pcol + 1);
      } else {
        ExactReachesEchelon(out2, prow + 1, pcol + 1, swaps);
      }
    }
  }

  // ---------------------------------------------------------------------
  // Dispatch on the scalar type

  /** The kernel picks its echelon by scalar type: the generic one for exact
      fractions, partial pivoting for f64. */
  datatype ScalarKind = Exact | Float

  /** The echelon form and swap count the kernel computes for `m`. */
  function EchelonOf(m: Matrix, kind: ScalarKind): (e: Reduction)
    requires |m| > 0 && IsRect(m)
    ensures HasShape(e.m, |m|, Cols(m)) && IsRowEchelon(e.m)
    ensures e.swaps <= |m| && e.swaps <= Cols(m)
  {
    match kind
    case Float =>
      PivotingReachesEchelon(m, 0, 0, 0);
      PivotingFrom(m, 0, 0, 0, true).r
    case Exact =>
      ExactReachesEchelon(m, 0, 0, 0);
      ExactFrom(m, 0, 0, 0, false).r
  }

  /** `echelon()`: the row echelon form of `m` and the number of swaps. */
  method Echelon(m: Matrix, kind: ScalarKind) returns (out: Matrix, swaps: nat)
    requires |m| > 0 && IsRect(m)
    ensures Reduction(out, swaps) == EchelonOf(m, kind)
    ensures HasShape(out, |m|, Cols(m)) && IsRowEchelon(out)
  {
    match kind
    case Float =>
      out, swaps := EchelonPivoting(m);
    case Exact =>
      out, swaps := EchelonExact(m);
  }

  // ---------------------------------------------------------------------
  // What goes wrong without the fixes

  /** As written, the generic echelon swaps the zero at row 0 with row 1,
      moves `prow` onto the zero and then divides by it. */
  lemma ExactAsWrittenDividesByZero()
    ensures ExactFrom([[0.0], [1.0], [1.0]], 0, 0, 0, true) == ZeroDivisor(1, 0)
    ensures ExactFrom([[0.0], [1.0], [1.0]], 0, 0, 0, false).Reduced?
  {
    var m: Matrix := [[0.0], [1.0], [1.0]];
    assert FirstNonzeroBelow(m, 0, 1) == 1;
    assert RowSwapped(m, 0, 1) == [[1.0], [0.0], [1.0]];
  }

  /** As written, a pivot found in the last row moves `prow` there, and
      the `break` on the last row ends the loop at once: the matrix of a
      cyclic permutation comes back out of echelon form, with a zero on
      the diagonal, where the corrected loop reaches the identity after
      two swaps. */
  lemma ExactAsWrittenStopsEarly()
    ensures ExactFrom([[0.0, 1.0, 0.0], [0.0, 0.0, 1.0], [1.0, 0.0, 0.0]], 0, 0, 0, true)
      == Reduced(Reduction([[1.0, 0.0, 0.0], [0.0, 0.0, 1.0], [0.0, 1.0, 0.0]], 1))
    ensures !IsRowEchelon([[1.0, 0.0, 0.0], [0.0, 0.0, 1.0], [0.0, 1.0, 0.0]])
    ensures DiagonalProduct([[1.0, 0.0, 0.0], [0.0, 0.0, 1.0], [0.0, 1.0, 0.0]], 3) == 0.0
    ensures ExactFrom([[0.0, 1.0, 0.0], [0.0, 0.0, 1.0], [1.0, 0.0, 0.0]], 0, 0, 0, false)
      == Reduced(Reduction(Identity(3), 2))
  {
    var m: Matrix := [[0.0, 1.0, 0.0], [0.0, 0.0, 1.0], [1.0, 0.0, 0.0]];
    var s: Matrix := [[1.0, 0.0, 0.0], [0.0, 0.0, 1.0], [0.0, 1.0, 0.0]];
    assert FirstNonzeroBelow(m, 0, 1) == 2;
    assert RowSwapped(m, 0, 2) == s;
    assert Lead(s[1]) == 2 by { LeadIs(s[1], 2); }
    assert Lead(s[2]) == 1 by { LeadIs(s[2], 1); }
    EliminatedClearsColumn(s, 0, 0);
    assert Eliminated(s, 0, 0) == s by { SameRows(Eliminated(s, 0, 0), s); }
    assert FirstNonzeroBelow(s, 1, 2) == 2;
    var id: Matrix := [[1.0, 0.0, 0.0], [0.0, 1.0, 0.0], [0.0, 0.0, 1.0]];
    assert Identity(3) == id by { SameRows(Identity(3), id); }
    assert RowSwapped(s, 1, 2) == id;
    EliminatedClearsColumn(id, 1, 1);
    assert Eliminated(id, 1, 1) == id by { SameRows(Eliminated(id, 1, 1), id); }
  }

  /** Two 3 by 3 matrices with equal entries are equal. */
  lemma SameRows(a: Matrix, b: Matrix)
    requires HasShape(a, 3, 3) && HasShape(b, 3, 3)
    requires forall i, j | 0 <= i < 3 && 0 <= j < 3 :: a[i][j] == b[i][j]
    ensures a == b
  {
    assert a[0] == b[0] && a[1] == b[1] && a[2] == b[2];
  }
}
