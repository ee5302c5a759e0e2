/** The augmented matrix `[m | I]` that `inverse` of src/matrix.rs reduces.
    Every step of either echelon changes the rows of `[l | r]` by the same
    row operations on both halves, so `r * m == l` holds throughout: the
    right half records what was done to `m`. And as long as the loop is
    still in the left columns it decides exactly as it would on `m` alone,
    so the left half of the echelon of `[m | I]` is the echelon of `m`. */
module Augmented {
  import opened Matrices
  import opened Elimination

  /** The first `w` entries of every row. */
  function LeftColumns(x: Matrix, w: nat): (l: Matrix)
    requires forall i | 0 <= i < |x| :: w <= |x[i]|
    ensures |l| == |x| && forall i | 0 <= i < |x| :: l[i] == x[i][..w] && |l[i]| == w
  {
    seq(|x|, i requires 0 <= i < |x| => x[i][..w])
  }

  /** Every row without its first `w` entries. */
  function RightColumns(x: Matrix, w: nat): (r: Matrix)
    requires forall i | 0 <= i < |x| :: w <= |x[i]|
    ensures |r| == |x| && forall i | 0 <= i < |x| :: r[i] == x[i][w..]
  {
    seq(|x|, i requires 0 <= i < |x| => x[i][w..])
  }

  lemma BesideShape(a: Matrix, b: Matrix)
    requires |a| > 0 && |a| == |b| && IsRect(a) && IsRect(b)
    ensures IsRect(Beside(a, b)) && Cols(Beside(a, b)) == Cols(a) + Cols(b)
  {
  }

  /** `x` is `[l | r]`, as wide as `[m | I]`, with `r * m == l`. */
  ghost predicate Tracks(x: Matrix, m: Matrix)
  {
    |m| > 0 && IsRect(m) && HasShape(x, |m|, Cols(m) + |m|) &&
    Product(RightColumns(x, Cols(m)), m) == LeftColumns(x, Cols(m))
  }

  // ---------------------------------------------------------------------
  // Row operations keep `r * m == l`

  /** `[m | I]` itself: `I * m == m`. */
  lemma TracksStart(m: Matrix)
    requires |m| > 0 && IsRect(m)
    ensures Tracks(Beside(m, Identity(|m|)), m)
  {
    var x, w := Beside(m, Identity(|m|)), Cols(m);
    assert RightColumns(x, w) == Identity(|m|) by {
      forall i | 0 <= i < |m|
        ensures x[i][w..] == Identity(|m|)[i]
      {
        assert x[i] == m[i] + Identity(|m|)[i];
      }
    }
    assert LeftColumns(x, w) == m by {
      forall i | 0 <= i < |m|
        ensures x[i][..w] == m[i]
      {
        assert x[i] == m[i] + Identity(|m|)[i];
      }
    }
    ProductIdentityLeft(m, |m|);
  }

  /** Adding to every row `i` the multiple `coef[i]` of row `p` (all read
      before the change, so row `p` may be rescaled too). */
  lemma TracksCombination(x: Matrix, y: Matrix, m: Matrix, p: nat, coef: seq<real>)
    requires Tracks(x, m) && HasShape(y, |x|, Cols(m) + |m|) && p < |x| && |coef| == |x|
    requires forall i, c | 0 <= i < |x| && 0 <= c < |x[i]| :: y[i][c] == x[i][c] + coef[i] * x[p][c]
    ensures Tracks(y, m)
  {
    var w := Cols(m);
    var q, l' := Product(RightColumns(y, w), m), LeftColumns(y, w);
    forall i | 0 <= i < |m|
      ensures q[i] == l'[i]
    {
      forall j | 0 <= j < w
        ensures q[i][j] == l'[i][j]
      {
        CombinationEntry(x, y, m, p, coef[i], i, j);
      }
    }
  }

  /** Entry (i, j) of `r * m` after row `i` gained `s` times row `p`. */
  lemma CombinationEntry(x: Matrix, y: Matrix, m: Matrix, p: nat, s: real, i: nat, j: nat)
    requires Tracks(x, m) && HasShape(y, |x|, Cols(m) + |m|) && p < |x| && i < |x| && j < Cols(m)
    requires forall c | 0 <= c < |x[i]| :: y[i][c] == x[i][c] + s * x[p][c]
    ensures Dot(y[i][Cols(m)..], Column(m, j)) == y[i][j]
  {
    var w := Cols(m);
    var r := RightColumns(x, w);
    var yi := y[i][w..];
    forall k | 0 <= k < |m|
      ensures yi[k] == r[i][k] + s * r[p][k]
    {
      assert yi[k] == y[i][w + k] && r[i][k] == x[i][w + k] && r[p][k] == x[p][w + k];
    }
    DotAddScaled(yi, r[i], r[p], s, Column(m, j));
    assert Product(r, m)[i][j] == x[i][j] && Product(r, m)[p][j] == x[p][j];
  }

  /** Exchanging two rows. */
  lemma TracksSwap(x: Matrix, m: Matrix, a: nat, b: nat)
    requires Tracks(x, m) && a < |x| && b < |x|
    ensures Tracks(RowSwapped(x, a, b), m)
  {
    var w, y := Cols(m), RowSwapped(x, a, b);
    var l, r := LeftColumns(x, w), RightColumns(x, w);
    assert RightColumns(y, w) == RowSwapped(r, a, b);
    assert LeftColumns(y, w) == RowSwapped(l, a, b);
    var q := Product(RowSwapped(r, a, b), m);
    forall i | 0 <= i < |m|
      ensures q[i] == RowSwapped(l, a, b)[i]
    {
      var i' := if i == a then b else if i == b then a else i;
      assert RowSwapped(r, a, b)[i] == r[i'];
      forall j | 0 <= j < w
        ensures q[i][j] == l[i'][j]
      {
        assert Product(r, m)[i'][j] == l[i'][j];
      }
    }
  }

  /** One elimination step subtracts multiples of the pivot row. */
  lemma TracksEliminated(x: Matrix, m: Matrix, prow: nat, pcol: nat)
    requires Tracks(x, m) && prow < |x| && pcol < Cols(m) + |m|
    requires x[prow][pcol] != 0.0 || prow + 1 == |x|
    ensures IsRect(x) && Tracks(Eliminated(x, prow, pcol), m)
  {
    var e := Eliminated(x, prow, pcol);
    var coef := seq(|x|, i requires 0 <= i < |x| => if i <= prow then 0.0 else -(x[i][pcol] / x[prow][pcol]));
    forall i, c | 0 <= i < |x| && 0 <= c < |x[i]|
      ensures e[i][c] == x[i][c] + coef[i] * x[prow][c]
    {
      EliminatedEntry(x, prow, pcol, i, c);
    }
    TracksCombination(x, e, m, prow, coef);
  }

  /** Entry (i, c) after one elimination step, as a combination with the
      pivot row. */
  lemma EliminatedEntry(x: Matrix, prow: nat, pcol: nat, i: nat, c: nat)
    requires |x| > 0 && IsRect(x) && prow < |x| && pcol < Cols(x) && i < |x| && c < Cols(x)
    requires x[prow][pcol] != 0.0 || prow + 1 == |x|
    ensures Eliminated(x, prow, pcol)[i][c] ==
      x[i][c] + (if i <= prow then 0.0 else -(x[i][pcol] / x[prow][pcol])) * x[prow][c]
  {
    if prow < i && c == pcol {
      var d := x[prow][pcol];
      assert (x[i][pcol] / d) * d == x[i][pcol];
    }
  }

  lemma {:induction false} PivotingTracks(out: Matrix, m: Matrix, prow: nat, pcol: nat, swaps: nat)
    requires Tracks(out, m) && prow <= |out| && pcol <= Cols(m) + |m|
    ensures IsRect(out) && pcol <= Cols(out)
    ensures var o := PivotingFrom(out, prow, pcol, swaps, true); o.Reduced? ==> Tracks(o.r.m, m)
    decreases Cols(m) + |m| - pcol, 2
  {
    if prow < |out| && pcol < Cols(out) {
      if out[PivotRow(out, prow, pcol)][pcol] == 0.0 {
        PivotingSkipStep(out, prow, pcol, swaps);
        PivotingTracks(out, m, prow, pcol + 1, swaps);
      } else {
        PivotingTracksPivot(out, m, prow, pcol, swaps);
      }
    }
  }

  lemma {:induction false} PivotingTracksPivot(out: Matrix, m: Matrix, prow: nat, pcol: nat, swaps: nat)
    requires Tracks(out, m) && prow < |out| && pcol < Cols(m) + |m|
    requires IsRect(out) && out[PivotRow(out, prow, pcol)][pcol] != 0.0
    ensures var o := PivotingFrom(out, prow, pcol, swaps, true); o.Reduced? ==> Tracks(o.r.m, m)
    decreases Cols(m) + |m| - pcol, 1
  {
    var piv := PivotRow(out, prow, pcol);
    PivotingPivotStep(out, prow, pcol, swaps, true);
    var out1 := if piv != prow then RowSwapped(out, prow, piv) else out;
    if piv != prow {
      TracksSwap(out, m, prow, piv);
    }
    TracksEliminated(out1, m, prow, pcol);
    PivotingTracksNext(Eliminated(out1, prow, pcol), m, prow, pcol, if piv != prow then swaps + 1 else swaps,
      PivotingFrom(out, prow, pcol, swaps, true));
  }

  /** The loop from the next row and column, whose outcome `o` is given. */
  lemma {:induction false} PivotingTracksNext(next: Matrix, m: Matrix, prow: nat, pcol: nat, swaps1: nat, o: Outcome)
    requires Tracks(next, m) && prow < |next| && pcol < Cols(m) + |m| && IsRect(next)
    requires o == PivotingFrom(next, prow + 1, pcol + 1, swaps1, true)
    ensures o.Reduced? ==> Tracks(o.r.m, m)
    decreases Cols(m) + |m| - pcol, 0
  {
    PivotingTracks(next, m, prow + 1, pcol + 1, swaps1);
  }

  lemma {:induction false} ExactTracks(out: Matrix, m: Matrix, prow: nat, pcol: nat, swaps: nat, move: bool)
    requires Tracks(out, m) && prow < |out| && pcol <= Cols(m) + |m|
    ensures IsRect(out) && pcol <= Cols(out)
    ensures var o := ExactFrom(out, prow, pcol, swaps, move); o.Reduced? ==> Tracks(o.r.m, m)
    decreases Cols(m) + |m| - pcol, 2
  {
    if pcol < Cols(out) {
      var below := PivotBelow(out, prow, pcol);
      if below == |out| {
        ExactTracks(out, m, prow, pcol + 1, swaps, move);
      } else if below == prow {
        ExactEliminateTracks(out, m, prow, pcol, swaps, move);
      } else {
        TracksSwap(out, m, prow, below);
        ExactEliminateTracks(RowSwapped(out, prow, below), m, if move then below else prow, pcol, swaps + 1, move);
      }
    }
  }

  lemma {:induction false} ExactEliminateTracks(out: Matrix, m: Matrix, prow: nat, pcol: nat, swaps: nat, move: bool)
    requires Tracks(out, m) && prow < |out| && pcol < Cols(m) + |m|
    ensures IsRect(out) && pcol < Cols(out)
    ensures var o := ExactEliminate(out, prow, pcol, swaps, move); o.Reduced? ==> Tracks(o.r.m, m)
    decreases Cols(m) + |m| - pcol, 1
  {
    if prow < |out| - 1 && out[prow][pcol] != 0.0 {
      TracksEliminated(out, m, prow, pcol);
      if prow + 1 < |out| - 1 {
        ExactEliminateStep(out, prow, pcol, swaps, move);
        ExactTracksNext(Eliminated(out, prow, pcol), m, prow, pcol, swaps, move, ExactEliminate(out, prow, pcol, swaps, move));
      }
    }
  }

  /** The loop from the next row and column, whose outcome `o` is given. */
  lemma {:induction false} ExactTracksNext(next: Matrix, m: Matrix, prow: nat, pcol: nat, swaps: nat, move: bool, o: Outcome)
    requires Tracks(next, m) && prow + 1 < |next| && pcol < Cols(m) + |m| && IsRect(next)
    requires o == ExactFrom(next, prow + 1, pcol + 1, swaps, move)
    ensures o.Reduced? ==> Tracks(o.r.m, m)
    decreases Cols(m) + |m| - pcol, 0
  {
    ExactTracks(next, m, prow + 1, pcol + 1, swaps, move);
  }

  /** The echelon of `[m | I]` is `[l | r]` with `r * m == l`. */
  lemma EchelonTracks(m: Matrix, kind: ScalarKind)
    requires |m| > 0 && IsRect(m)
    ensures IsRect(Beside(m, Identity(|m|))) && Tracks(EchelonOf(Beside(m, Identity(|m|)), kind).m, m)
  {
    var a := Beside(m, Identity(|m|));
    TracksStart(m);
    match kind
    case Float =>
      PivotingReachesEchelon(a, 0, 0, 0);
      PivotingTracks(a, m, 0, 0, 0);
    case Exact =>
      ExactReachesEchelon(a, 0, 0, 0);
      ExactTracks(a, m, 0, 0, 0, false);
  }

  // ---------------------------------------------------------------------
  // The left half follows the echelon of `m`

  lemma LeftOfSwap(x: Matrix, w: nat, a: nat, b: nat)
    requires (forall i | 0 <= i < |x| :: w <= |x[i]|) && a < |x| && b < |x|
    ensures LeftColumns(RowSwapped(x, a, b), w) == RowSwapped(LeftColumns(x, w), a, b)
  {
  }

  /** In a column of the left half, eliminating and then cutting gives
      what cutting and then eliminating gives. */
  lemma LeftOfEliminated(x: Matrix, w: nat, prow: nat, pcol: nat)
    requires |x| > 0 && IsRect(x) && pcol < w <= Cols(x) && prow < |x|
    requires x[prow][pcol] != 0.0 || prow + 1 == |x|
    ensures IsRect(LeftColumns(x, w)) && Cols(LeftColumns(x, w)) == w &&
      LeftColumns(Eliminated(x, prow, pcol), w) == Eliminated(LeftColumns(x, w), prow, pcol)
  {
    var l, e := LeftColumns(x, w), Eliminated(x, prow, pcol);
    var el := Eliminated(l, prow, pcol);
    forall i | 0 <= i < |x|
      ensures e[i][..w] == el[i]
    {
      if i > prow {
        assert forall c | 0 <= c < w :: e[i][c] == el[i][c];
      }
    }
  }

  /** A step of the loop past the left columns, on rows whose left parts
      are zero from `prow` down, leaves the left half as it is. */
  lemma LeftOfEliminatedZero(x: Matrix, w: nat, prow: nat, pcol: nat)
    requires |x| > 0 && IsRect(x) && w <= pcol < Cols(x) && prow < |x| && x[prow][pcol] != 0.0
    requires forall k, c | prow <= k < |x| && 0 <= c < w :: x[k][c] == 0.0
    ensures LeftColumns(Eliminated(x, prow, pcol), w) == LeftColumns(x, w)
  {
    var e := Eliminated(x, prow, pcol);
    forall i | prow < i < |x|
      ensures e[i][..w] == x[i][..w]
    {
      forall c | 0 <= c < w
        ensures e[i][c] == x[i][c]
      {
        assert x[i][c] == 0.0 && x[prow][c] == 0.0;
      }
    }
  }

  lemma LeftOfSwapZero(x: Matrix, w: nat, a: nat, b: nat)
    requires (forall i | 0 <= i < |x| :: w <= |x[i]|) && a < |x| && b < |x|
    requires forall c | 0 <= c < w :: x[a][c] == 0.0 && x[b][c] == 0.0
    ensures LeftColumns(RowSwapped(x, a, b), w) == LeftColumns(x, w)
  {
    assert x[a][..w] == x[b][..w];
  }

  /** The pivot searches of both loops only read column `pcol`. */
  lemma PivotSearchLeft(x: Matrix, w: nat, prow: nat, pcol: nat)
    requires |x| > 0 && IsRect(x) && pcol < w <= Cols(x) && prow < |x|
    ensures IsRect(LeftColumns(x, w)) && Cols(LeftColumns(x, w)) == w &&
      PivotRow(LeftColumns(x, w), prow, pcol) == PivotRow(x, prow, pcol) &&
      PivotBelow(LeftColumns(x, w), prow, pcol) == PivotBelow(x, prow, pcol)
  {
    var l := LeftColumns(x, w);
    assert Column(l, pcol) == Column(x, pcol);
    FirstNonzeroSameColumn(l, x, pcol, prow + 1);
  }

  /** The scan for a nonzero entry reads only column `pcol`. */
  lemma {:induction false} FirstNonzeroSameColumn(x: Matrix, y: Matrix, pcol: nat, i: nat)
    requires |x| == |y| && i <= |x|
    requires forall k | 0 <= k < |x| :: pcol < |x[k]| && pcol < |y[k]| && x[k][pcol] == y[k][pcol]
    ensures FirstNonzeroBelow(x, pcol, i) == FirstNonzeroBelow(y, pcol, i)
    decreases |x| - i
  {
    if i < |x| && x[i][pcol] == 0.0 {
      FirstNonzeroSameColumn(x, y, pcol, i + 1);
    }
  }

  /** Both loops finished, and the first `w` columns of the first result
      are the second result. */
  predicate LeftAgrees(a: Outcome, b: Outcome, w: nat)
  {
    a.Reduced? && b.Reduced? && (forall i | 0 <= i < |a.r.m| :: w <= |a.r.m[i]|) &&
    LeftColumns(a.r.m, w) == b.r.m
  }

  lemma AgreesTransfer(a: Outcome, b: Outcome, a': Outcome, b': Outcome, w: nat)
    requires a == a' && b == b' && LeftAgrees(a', b', w)
    ensures LeftAgrees(a, b, w)
  {
  }

  /** The partial-pivoting loop once past the left columns. */
  lemma {:induction false} PivotingTail(out: Matrix, w: nat, prow: nat, pcol: nat, swaps: nat)
    requires |out| > 0 && IsRect(out) && w <= pcol && Staircase(out, prow, pcol)
    ensures var o := PivotingFrom(out, prow, pcol, swaps, true);
      o.Reduced? && LeftColumns(o.r.m, w) == LeftColumns(out, w)
    decreases Cols(out) - pcol, 2
  {
    if prow < |out| && pcol < Cols(out) {
      if out[PivotRow(out, prow, pcol)][pcol] == 0.0 {
        PivotingTailSkip(out, w, prow, pcol, swaps);
      } else {
        PivotingTailPivot(out, w, prow, pcol, swaps);
      }
    }
  }

  lemma {:induction false} PivotingTailSkip(out: Matrix, w: nat, prow: nat, pcol: nat, swaps: nat)
    requires |out| > 0 && IsRect(out) && w <= pcol < Cols(out) && prow < |out| && Staircase(out, prow, pcol)
    requires out[PivotRow(out, prow, pcol)][pcol] == 0.0
    ensures var o := PivotingFrom(out, prow, pcol, swaps, true);
      o.Reduced? && LeftColumns(o.r.m, w) == LeftColumns(out, w)
    decreases Cols(out) - pcol, 1
  {
    PivotZeroMeansColumnZero(out, prow, pcol);
    StaircaseSkip(out, prow, pcol);
    PivotingSkipStep(out, prow, pcol, swaps);
    PivotingTail(out, w, prow, pcol + 1, swaps);
  }

  lemma {:induction false} PivotingTailPivot(out: Matrix, w: nat, prow: nat, pcol: nat, swaps: nat)
    requires |out| > 0 && IsRect(out) && w <= pcol < Cols(out) && prow < |out| && Staircase(out, prow, pcol)
    requires out[PivotRow(out, prow, pcol)][pcol] != 0.0
    ensures var o := PivotingFrom(out, prow, pcol, swaps, true);
      o.Reduced? && LeftColumns(o.r.m, w) == LeftColumns(out, w)
    decreases Cols(out) - pcol, 1
  {
    var piv := PivotRow(out, prow, pcol);
    var out1 := if piv != prow then RowSwapped(out, prow, piv) else out;
    PivotingPivotStep(out, prow, pcol, swaps, true);
    PivotedStaircase(out, prow, pcol, piv);
    if piv != prow {
      LeftOfSwapZero(out, w, prow, piv);
    }
    LeftOfEliminatedZero(out1, w, prow, pcol);
    PivotingTailContinues(out, w, prow, pcol, swaps, Eliminated(out1, prow, pcol), if piv != prow then swaps + 1 else swaps);
  }

  lemma {:induction false} PivotingTailContinues(out: Matrix, w: nat, prow: nat, pcol: nat, swaps: nat, next: Matrix, swaps1: nat)
    requires |out| > 0 && IsRect(out) && w <= pcol < Cols(out) && prow < |out|
    requires |next| == |out| && IsRect(next) && Cols(next) == Cols(out) && Staircase(next, prow + 1, pcol + 1)
    requires LeftColumns(next, w) == LeftColumns(out, w)
    requires PivotingFrom(out, prow, pcol, swaps, true) == PivotingFrom(next, prow + 1, pcol + 1, swaps1, true)
    ensures var o := PivotingFrom(out, prow, pcol, swaps, true);
      o.Reduced? && LeftColumns(o.r.m, w) == LeftColumns(out, w)
    decreases Cols(out) - pcol, 0
  {
    PivotingTail(next, w, prow + 1, pcol + 1, swaps1);
  }

  /** The partial-pivoting loop on `[m | I]`, cut to its first `w`
      columns, is the loop on the first `w` columns. */
  lemma {:induction false} PivotingLeft(out: Matrix, w: nat, prow: nat, pcol: nat, swaps: nat)
    requires |out| > 0 && IsRect(out) && pcol <= w <= Cols(out) && Staircase(out, prow, pcol)
    ensures LeftAgrees(PivotingFrom(out, prow, pcol, swaps, true), PivotingFrom(LeftColumns(out, w), prow, pcol, swaps, true), w)
    decreases w - pcol, 3
  {
    if prow == |out| {
    } else if pcol == w {
      PivotingTail(out, w, prow, pcol, swaps);
    } else if out[PivotRow(out, prow, pcol)][pcol] == 0.0 {
      PivotingLeftSkip(out, w, prow, pcol, swaps);
    } else {
      PivotingLeftPivot(out, w, prow, pcol, swaps);
    }
  }

  lemma {:induction false} PivotingLeftSkip(out: Matrix, w: nat, prow: nat, pcol: nat, swaps: nat)
    requires |out| > 0 && IsRect(out) && pcol < w <= Cols(out) && prow < |out| && Staircase(out, prow, pcol)
    requires out[PivotRow(out, prow, pcol)][pcol] == 0.0
    ensures LeftAgrees(PivotingFrom(out, prow, pcol, swaps, true), PivotingFrom(LeftColumns(out, w), prow, pcol, swaps, true), w)
    decreases w - pcol, 2
  {
    PivotSearchLeft(out, w, prow, pcol);
    var l := LeftColumns(out, w);
    PivotZeroMeansColumnZero(out, prow, pcol);
    StaircaseSkip(out, prow, pcol);
    PivotingSkipStep(out, prow, pcol, swaps);
    PivotingSkipStep(l, prow, pcol, swaps);
    PivotingLeft(out, w, prow, pcol + 1, swaps);
    AgreesTransfer(PivotingFrom(out, prow, pcol, swaps, true), PivotingFrom(l, prow, pcol, swaps, true),
      PivotingFrom(out, prow, pcol + 1, swaps, true), PivotingFrom(l, prow, pcol + 1, swaps, true), w);
  }

  lemma {:induction false} PivotingLeftPivot(out: Matrix, w: nat, prow: nat, pcol: nat, swaps: nat)
    requires |out| > 0 && IsRect(out) && pcol < w <= Cols(out) && prow < |out| && Staircase(out, prow, pcol)
    requires out[PivotRow(out, prow, pcol)][pcol] != 0.0
    ensures LeftAgrees(PivotingFrom(out, prow, pcol, swaps, true), PivotingFrom(LeftColumns(out, w), prow, pcol, swaps, true), w)
    decreases w - pcol, 1
  {
    var next, swaps1 := PivotingLeftStep(out, w, prow, pcol, swaps);
    PivotingLeft(next, w, prow + 1, pcol + 1, swaps1);
    AgreesTransfer(PivotingFrom(out, prow, pcol, swaps, true), PivotingFrom(LeftColumns(out, w), prow, pcol, swaps, true),
      PivotingFrom(next, prow + 1, pcol + 1, swaps1, true), PivotingFrom(LeftColumns(next, w), prow + 1, pcol + 1, swaps1, true), w);
  }

  /** One pivot step of the loop, on the wide matrix and on its first `w`
      columns alike, leads to the same state `next` cut or uncut. */
  lemma PivotingLeftStep(out: Matrix, w: nat, prow: nat, pcol: nat, swaps: nat) returns (next: Matrix, swaps1: nat)
    requires |out| > 0 && IsRect(out) && pcol < w <= Cols(out) && prow < |out| && Staircase(out, prow, pcol)
    requires out[PivotRow(out, prow, pcol)][pcol] != 0.0
    ensures |next| == |out| && IsRect(next) && Cols(next) == Cols(out) && Staircase(next, prow + 1, pcol + 1)
    ensures PivotingFrom(out, prow, pcol, swaps, true) == PivotingFrom(next, prow + 1, pcol + 1, swaps1, true)
    ensures PivotingFrom(LeftColumns(out, w), prow, pcol, swaps, true) ==
      PivotingFrom(LeftColumns(next, w), prow + 1, pcol + 1, swaps1, true)
  {
    PivotSearchLeft(out, w, prow, pcol);
    var l := LeftColumns(out, w);
    var piv := PivotRow(out, prow, pcol);
    var out1 := if piv != prow then RowSwapped(out, prow, piv) else out;
    PivotingPivotStep(out, prow, pcol, swaps, true);
    PivotingPivotStep(l, prow, pcol, swaps, true);
    PivotedStaircase(out, prow, pcol, piv);
    LeftOfSwap(out, w, prow, piv);
    LeftOfEliminated(out1, w, prow, pcol);
    next, swaps1 := Eliminated(out1, prow, pcol), if piv != prow then swaps + 1 else swaps;
  }

  /** The generic loop once past the left columns. */
  lemma {:induction false} ExactTail(out: Matrix, w: nat, prow: nat, pcol: nat, swaps: nat)
    requires |out| > 0 && IsRect(out) && prow < |out| && w <= pcol && Staircase(out, prow, pcol)
    ensures var o := ExactFrom(out, prow, pcol, swaps, false);
      o.Reduced? && LeftColumns(o.r.m, w) == LeftColumns(out, w)
    decreases Cols(out) - pcol, 1
  {
    ExactReachesEchelon(out, prow, pcol, swaps);
    if pcol < Cols(out) {
      var below := PivotBelow(out, prow, pcol);
      if below == |out| {
        StaircaseSkip(out, prow, pcol);
        ExactTail(out, w, prow, pcol + 1, swaps);
      } else {
        StaircaseSwap(out, prow, pcol, below);
        LeftOfSwapZero(out, w, prow, below);
        if below == prow {
          ExactEliminateTail(out, w, prow, pcol, swaps);
        } else {
          ExactEliminateTail(RowSwapped(out, prow, below), w, prow, pcol, swaps + 1);
        }
      }
    }
  }

  lemma {:induction false} ExactEliminateTail(out: Matrix, w: nat, prow: nat, pcol: nat, swaps: nat)
    requires |out| > 0 && IsRect(out) && prow < |out| && w <= pcol < Cols(out) && Staircase(out, prow, pcol)
    requires out[prow][pcol] != 0.0
    ensures var o := ExactEliminate(out, prow, pcol, swaps, false);
      o.Reduced? && LeftColumns(o.r.m, w) == LeftColumns(out, w)
    decreases Cols(out) - pcol, 0
  {
    ExactEliminateReachesEchelon(out, prow, pcol, swaps);
    if prow < |out| - 1 {
      StaircaseEliminate(out, prow, pcol);
      LeftOfEliminatedZero(out, w, prow, pcol);
      if prow + 1 < |out| - 1 {
        ExactTail(Eliminated(out, prow, pcol), w, prow + 1, pcol + 1, swaps);
      }
    }
  }

  /** The generic loop on `[m | I]`, cut to its first `w` columns, is the
      loop on the first `w` columns. */
  lemma {:induction false} ExactLeft(out: Matrix, w: nat, prow: nat, pcol: nat, swaps: nat)
    requires |out| > 0 && IsRect(out) && prow < |out| && pcol <= w <= Cols(out) && Staircase(out, prow, pcol)
    ensures LeftAgrees(ExactFrom(out, prow, pcol, swaps, false), ExactFrom(LeftColumns(out, w), prow, pcol, swaps, false), w)
    decreases w - pcol, 2
  {
    if pcol == w {
      ExactTail(out, w, prow, pcol, swaps);
    } else {
      PivotSearchLeft(out, w, prow, pcol);
      var below := PivotBelow(out, prow, pcol);
      if below == |out| {
        StaircaseSkip(out, prow, pcol);
        ExactLeft(out, w, prow, pcol + 1, swaps);
      } else {
        StaircaseSwap(out, prow, pcol, below);
        LeftOfSwap(out, w, prow, below);
        if below == prow {
          ExactEliminateLeft(out, w, prow, pcol, swaps);
        } else {
          ExactEliminateLeft(RowSwapped(out, prow, below), w, prow, pcol, swaps + 1);
        }
      }
    }
  }

  lemma {:induction false} ExactEliminateLeft(out: Matrix, w: nat, prow: nat, pcol: nat, swaps: nat)
    requires |out| > 0 && IsRect(out) && prow < |out| && pcol < w <= Cols(out) && Staircase(out, prow, pcol)
    requires out[prow][pcol] != 0.0
    ensures LeftAgrees(ExactEliminate(out, prow, pcol, swaps, false), ExactEliminate(LeftColumns(out, w), prow, pcol, swaps, false), w)
    decreases w - pcol, 1
  {
    var l := LeftColumns(out, w);
    assert l[prow][pcol] == out[prow][pcol];
    if prow < |out| - 1 {
      StaircaseEliminate(out, prow, pcol);
      LeftOfEliminated(out, w, prow, pcol);
      ExactEliminateStep(out, prow, pcol, swaps, false);
      ExactEliminateStep(l, prow, pcol, swaps, false);
      if prow + 1 < |out| - 1 {
        ExactLeftNext(Eliminated(out, prow, pcol), w, prow, pcol, swaps,
          ExactEliminate(out, prow, pcol, swaps, false), ExactEliminate(l, prow, pcol, swaps, false));
      }
    }
  }

  /** The loop from the next row and column, on the wide matrix and on its
      first `w` columns, whose outcomes `a` and `b` are given. */
  lemma {:induction false} ExactLeftNext(next: Matrix, w: nat, prow: nat, pcol: nat, swaps: nat, a: Outcome, b: Outcome)
    requires |next| > 0 && IsRect(next) && prow + 1 < |next| && pcol < w <= Cols(next) && Staircase(next, prow + 1, pcol + 1)
    requires a == ExactFrom(next, prow + 1, pcol + 1, swaps, false)
    requires b == ExactFrom(LeftColumns(next, w), prow + 1, pcol + 1, swaps, false)
    ensures LeftAgrees(a, b, w)
    decreases w - pcol, 0
  {
    ExactLeft(next, w, prow + 1, pcol + 1, swaps);
    AgreesTransfer(a, b, ExactFrom(next, prow + 1, pcol + 1, swaps, false),
      ExactFrom(LeftColumns(next, w), prow + 1, pcol + 1, swaps, false), w);
  }

  /** The left half of the echelon of `[m | I]` is the echelon of `m`. */
  lemma EchelonLeft(m: Matrix, kind: ScalarKind)
    requires |m| > 0 && IsRect(m)
    ensures IsRect(Beside(m, Identity(|m|)))
    ensures LeftColumns(EchelonOf(Beside(m, Identity(|m|)), kind).m, Cols(m)) == EchelonOf(m, kind).m
  {
    var a, w := Beside(m, Identity(|m|)), Cols(m);
    assert LeftColumns(a, w) == m by {
      forall i | 0 <= i < |m|
        ensures a[i][..w] == m[i]
      {
        assert a[i] == m[i] + Identity(|m|)[i];
      }
    }
    StaircaseStart(a);
    match kind
    case Float =>
      PivotingLeft(a, w, 0, 0, 0);
    case Exact =>
      ExactLeft(a, w, 0, 0, 0);
  }
}
