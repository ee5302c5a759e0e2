/** The earlier f64-only snapshot of the kernel, examples/linalg/src/matrix.rs:
    arithmetic without shape checks, row operations without index checks,
    the first partial-pivoting `REF`, and the byte codec with the older
    trailing-zero truncation. Operations that did not change between the
    two versions (`zero`, `id`, `Sub`, `Neg`) are the ones of `Kernel`. */
module Linalg {
  import opened Matrices
  import Kernel
  import opened Elimination
  import opened Truncation
  import Codec

  // ---------------------------------------------------------------------
  // Arithmetic

  /** `Add` without the shape assertion: the sum over the shape of `a`;
      `b` only has to reach every entry of `a`. */
  method Add(a: Matrix, b: Matrix) returns (out: Matrix)
    requires IsRect(a) && Covers(b, a)
    ensures SameShape(out, a)
    ensures forall i, j | 0 <= i < |a| && 0 <= j < |a[i]| :: out[i][j] == a[i][j] + b[i][j]
  {
    out := a;
    for i := 0 to |a|
      invariant SameShape(out, a)
      invariant forall k, j | 0 <= k < |a| && 0 <= j < |a[k]| ::
        out[k][j] == if k < i then a[k][j] + b[k][j] else a[k][j]
    {
      for j := 0 to Cols(a)
        invariant SameShape(out, a)
        invariant forall k, l | 0 <= k < |a| && 0 <= l < |a[k]| ::
          out[k][l] == if k < i || (k == i && l < j) then a[k][l] + b[k][l] else a[k][l]
      {
        out := out[i := out[i][j := out[i][j] + b[i][j]]];
      }
    }
  }

  /** The product of the first `|b|` columns of `a` with `b`: what `Mul`
      computes when it does not check that the shapes match. */
  function LeadingProduct(a: Matrix, b: Matrix): (p: Matrix)
    requires |b| > 0 && IsRect(b) && forall i | 0 <= i < |a| :: |a[i]| >= |b|
    ensures HasShape(p, |a|, Cols(b))
    ensures forall i, j | 0 <= i < |a| && 0 <= j < Cols(b) :: p[i][j] == DotTo(a[i], Column(b, j), |b|)
  {
    seq(|a|, i requires 0 <= i < |a| =>
      seq(Cols(b), j requires 0 <= j < Cols(b) => DotTo(a[i], Column(b, j), |b|)))
  }

  /** With matching shapes nothing is cut off: it is the matrix product. */
  lemma LeadingProductIsProduct(a: Matrix, b: Matrix)
    requires |b| > 0 && IsRect(b) && forall i | 0 <= i < |a| :: |a[i]| == |b|
    ensures LeadingProduct(a, b) == Product(a, b)
  {
    var p, q := LeadingProduct(a, b), Product(a, b);
    forall i | 0 <= i < |a|
      ensures p[i] == q[i]
    {
    }
  }

  /** `Mul` without the shape assertion: entry (i, j) sums over the rows
      of `b` only, so extra columns of `a` are ignored. */
  method Mul(a: Matrix, b: Matrix) returns (out: Matrix)
    requires |b| > 0 && IsRect(b) && forall i | 0 <= i < |a| :: |a[i]| >= |b|
    ensures out == LeadingProduct(a, b)
  {
    ghost var p := LeadingProduct(a, b);
    var rows, cols := |a|, Cols(b);
    out := Kernel.Zero(rows, cols);
    for i := 0 to rows
      invariant HasShape(out, rows, cols)
      invariant forall k | 0 <= k < i :: out[k] == p[k]
      invariant forall k, l | i <= k < rows && 0 <= l < cols :: out[k][l] == 0.0
    {
      for j := 0 to cols
        invariant HasShape(out, rows, cols)
        invariant forall k | 0 <= k < i :: out[k] == p[k]
        invariant forall k, l | i < k < rows && 0 <= l < cols :: out[k][l] == 0.0
        invariant forall l | 0 <= l < cols :: out[i][l] == if l < j then p[i][l] else 0.0
      {
        ghost var col := Column(b, j);
        for k := 0 to |b|
          invariant HasShape(out, rows, cols)
          invariant forall r | 0 <= r < i :: out[r] == p[r]
          invariant forall r, l | i < r < rows && 0 <= l < cols :: out[r][l] == 0.0
          invariant forall l | 0 <= l < cols && l != j :: out[i][l] == if l < j then p[i][l] else 0.0
          invariant out[i][j] == DotTo(a[i], col, k)
        {
          out := out[i := out[i][j := out[i][j] + a[i][k] * b[k][j]]];
        }
      }
      assert out[i] == p[i];
    }
  }

  // ---------------------------------------------------------------------
  // Row operations without index checks

  /** `rowswap`: rows `r1` and `r2` exchanged (an index out of range
      panics). */
  function RowSwap(m: Matrix, r1: nat, r2: nat): (s: Matrix)
    requires r1 < |m| && r2 < |m|
    ensures |s| == |m| && s[r1] == m[r2] && s[r2] == m[r1]
    ensures forall k | 0 <= k < |m| && k != r1 && k != r2 :: s[k] == m[k]
  {
    RowSwapped(m, r1, r2)
  }

  /** Swapping the same two rows again restores the matrix. */
  lemma RowSwapInvolution(m: Matrix, r1: nat, r2: nat)
    requires r1 < |m| && r2 < |m|
    ensures RowSwap(RowSwap(m, r1, r2), r1, r2) == m
  {
    var s := RowSwap(RowSwap(m, r1, r2), r1, r2);
    forall k | 0 <= k < |m|
      ensures s[k] == m[k]
    {
    }
  }

  /** `rowscale`: every entry of row `row` times `c`. */
  function RowScale(m: Matrix, row: nat, c: real): (s: Matrix)
    requires row < |m|
    ensures SameShape(s, m)
    ensures forall k | 0 <= k < |m[row]| :: s[row][k] == m[row][k] * c
    ensures forall k | 0 <= k < |m| && k != row :: s[k] == m[k]
  {
    RowScaled(m, row, c)
  }

  /** Scaling by a nonzero `c` is undone by scaling by `1/c`. */
  lemma RowScaleInverse(m: Matrix, row: nat, c: real)
    requires row < |m| && c != 0.0
    ensures RowScale(RowScale(m, row, c), row, 1.0 / c) == m
  {
    var s := RowScale(RowScale(m, row, c), row, 1.0 / c);
    forall k | 0 <= k < |m[row]|
      ensures s[row][k] == m[row][k]
    {
      assert m[row][k] * c * (1.0 / c) == m[row][k];
    }
    assert s[row] == m[row];
    forall k | 0 <= k < |m|
      ensures s[k] == m[k]
    {
    }
  }

  /** `rowadd`: row `r1` plus `c` times row `r2`, entry by entry. Nothing
      forbids `r1 == r2`: each entry then reads its own old value, and the
      row is scaled by `1 + c`. */
  method RowAdd(m: Matrix, r1: nat, r2: nat, c: real) returns (out: Matrix)
    requires |m| > 0 && IsRect(m) && r1 < |m| && r2 < |m|
    ensures SameShape(out, m)
    ensures forall k | 0 <= k < Cols(m) :: out[r1][k] == m[r1][k] + c * m[r2][k]
    ensures forall k | 0 <= k < |m| && k != r1 :: out[k] == m[k]
  {
    out := m;
    for i := 0 to Cols(m)
      invariant SameShape(out, m)
      invariant forall k | 0 <= k < |m| && k != r1 :: out[k] == m[k]
      invariant forall k | 0 <= k < Cols(m) :: out[r1][k] == if k < i then m[r1][k] + c * m[r2][k] else m[r1][k]
      invariant forall k | i <= k < Cols(m) :: out[r2][k] == m[r2][k]
    {
      out := out[r1 := out[r1][i := out[r1][i] + c * out[r2][i]]];
    }
  }

  /** Adding `c` times another row is undone by adding `-c` times it. */
  lemma RowAddInverse(m: Matrix, r1: nat, r2: nat, c: real)
    requires IsRect(m) && r1 < |m| && r2 < |m| && r1 != r2
    ensures RowAdded(RowAdded(m, r1, r2, c), r1, r2, -c) == m
  {
    var s := RowAdded(RowAdded(m, r1, r2, c), r1, r2, -c);
    assert s[r1] == m[r1];
    forall k | 0 <= k < |m|
      ensures s[k] == m[k]
    {
    }
  }

  // ---------------------------------------------------------------------
  // The first partial-pivoting REF

  /** `REF` as written. Its zero-column test looks at the length of
      `leading_values`, which is created with `rows - prow` slots and so is
      never empty: the test never fires, and a column that is zero from
      `prow` down reaches the division by the zero pivot (0/0, NaN in f64)
      whenever a row remains below. That iteration is reported as
      `ZeroDivisor`. */
  method Ref(m: Matrix) returns (o: Outcome)
    requires |m| > 0 && IsRect(m)
    ensures o == PivotingFrom(m, 0, 0, 0, false)
  {
    var out := m;
    var rows, cols := |m|, Cols(m);
    var prow: nat, pcol: nat, swaps: nat := 0, 0, 0;
    while prow < rows && pcol < cols
      invariant HasShape(out, rows, cols) && prow <= rows && pcol <= cols
      invariant PivotingFrom(out, prow, pcol, swaps, false) == PivotingFrom(m, 0, 0, 0, false)
      decreases cols - pcol
    {
      RefStep(out, prow, pcol, swaps);
      out, swaps := PivotUp(out, prow, pcol, swaps);
      if out[prow][pcol] == 0.0 && prow + 1 < rows {
        return ZeroDivisor(prow, pcol);
      }
      out := EliminateBelow(out, prow, pcol);
      prow := prow + 1;
      pcol := pcol + 1;
    }
    o := Reduced(Reduction(out, swaps));
  }

  /** The first half of an iteration of `REF`: find the pivot row and swap
      it up to `prow`. The zero-column test on `leading_values` never
      fires, as its length is `rows - prow`. */
  method PivotUp(out0: Matrix, prow: nat, pcol: nat, swaps0: nat) returns (out: Matrix, swaps: nat)
    requires |out0| > 0 && IsRect(out0) && prow < |out0| && pcol < Cols(out0)
    ensures var piv := PivotRow(out0, prow, pcol);
      out == (if piv != prow then RowSwapped(out0, prow, piv) else out0) &&
      swaps == (if piv != prow then swaps0 + 1 else swaps0)
  {
    var rows := |out0|;
    var leadingValues: seq<nat> := seq(rows - prow, _ => 0);
    var maxLeading, _ := MaxLeading(out0, prow, pcol);
    if |leadingValues| == 0 {
      assert false;
    }
    out, swaps := out0, swaps0;
    if prow != maxLeading {
      out := RowSwap(out, prow, maxLeading);
      swaps := swaps + 1;
    }
  }

  /** One iteration of `REF`: swap the pivot row up, then either divide by
      a zero pivot or eliminate below it. */
  lemma RefStep(out: Matrix, prow: nat, pcol: nat, swaps: nat)
    requires |out| > 0 && IsRect(out) && prow < |out| && pcol < Cols(out)
    ensures var piv := PivotRow(out, prow, pcol);
      var out1 := if piv != prow then RowSwapped(out, prow, piv) else out;
      var swaps1 := if piv != prow then swaps + 1 else swaps;
      HasShape(out1, |out|, Cols(out)) &&
      PivotingFrom(out, prow, pcol, swaps, false) ==
        if out1[prow][pcol] == 0.0 && prow + 1 < |out| then ZeroDivisor(prow, pcol)
        else PivotingFrom(Eliminated(out1, prow, pcol), prow + 1, pcol + 1, swaps1, false)
  {
  }

  lemma EliminatedLastRow(out: Matrix, pcol: nat)
    requires |out| > 0 && IsRect(out) && pcol < Cols(out)
    ensures Eliminated(out, |out| - 1, pcol) == out
  {
    var e := Eliminated(out, |out| - 1, pcol);
    forall i | 0 <= i < |out|
      ensures e[i] == out[i]
    {
    }
  }

  /** On the last row the pivoting echelon changes nothing. */
  lemma {:induction false} LastRowIdle(out: Matrix, pcol: nat, swaps: nat)
    requires |out| > 0 && IsRect(out) && pcol <= Cols(out)
    ensures PivotingFrom(out, |out| - 1, pcol, swaps, true) == Reduced(Reduction(out, swaps))
    decreases Cols(out) - pcol
  {
    if pcol < Cols(out) {
      var prow := |out| - 1;
      var piv := PivotRow(out, prow, pcol);
      assert piv == prow;
      if out[prow][pcol] == 0.0 {
        LastRowIdle(out, pcol + 1, swaps);
      } else {
        EliminatedLastRow(out, pcol);
      }
    }
  }

  /** A zero pivot column that `REF` survives is on the last row, where
      both echelons stop changing anything. */
  lemma RefAgreesOnZeroPivot(out: Matrix, prow: nat, pcol: nat, swaps: nat)
    requires |out| > 0 && IsRect(out) && prow < |out| && pcol < Cols(out)
    requires out[PivotRow(out, prow, pcol)][pcol] == 0.0
    requires PivotingFrom(out, prow, pcol, swaps, false).Reduced?
    ensures PivotingFrom(out, prow, pcol, swaps, false) == PivotingFrom(out, prow, pcol, swaps, true)
  {
    RefStep(out, prow, pcol, swaps);
    assert prow + 1 == |out| && PivotRow(out, prow, pcol) == prow;
    EliminatedLastRow(out, pcol);
    LastRowIdle(out, pcol + 1, swaps);
  }

  lemma {:induction false} RefAgreesWhenReduced(out: Matrix, prow: nat, pcol: nat, swaps: nat)
    requires |out| > 0 && IsRect(out) && prow <= |out| && pcol <= Cols(out)
    requires PivotingFrom(out, prow, pcol, swaps, false).Reduced?
    ensures PivotingFrom(out, prow, pcol, swaps, false) == PivotingFrom(out, prow, pcol, swaps, true)
    decreases Cols(out) - pcol, 1
  {
    if prow < |out| && pcol < Cols(out) {
      var piv := PivotRow(out, prow, pcol);
      if out[piv][pcol] == 0.0 {
        RefAgreesOnZeroPivot(out, prow, pcol, swaps);
      } else {
        PivotingPivotStep(out, prow, pcol, swaps, false);
        PivotingPivotStep(out, prow, pcol, swaps, true);
        var out1 := if piv != prow then RowSwapped(out, prow, piv) else out;
        RefAgreesContinues(out, prow, pcol, swaps, Eliminated(out1, prow, pcol),
          if piv != prow then swaps + 1 else swaps);
      }
    }
  }

  /** After a nonzero pivot both loops go on from the same state. */
  lemma {:induction false} RefAgreesContinues(out: Matrix, prow: nat, pcol: nat, swaps: nat, next: Matrix, swaps1: nat)
    requires |out| > 0 && IsRect(out) && prow < |out| && pcol < Cols(out)
    requires |next| == |out| && IsRect(next) && Cols(next) == Cols(out)
    requires PivotingFrom(out, prow, pcol, swaps, false) == PivotingFrom(next, prow + 1, pcol + 1, swaps1, false)
    requires PivotingFrom(out, prow, pcol, swaps, true) == PivotingFrom(next, prow + 1, pcol + 1, swaps1, true)
    requires PivotingFrom(out, prow, pcol, swaps, false).Reduced?
    ensures PivotingFrom(out, prow, pcol, swaps, false) == PivotingFrom(out, prow, pcol, swaps, true)
    decreases Cols(out) - pcol, 0
  {
    RefAgreesWhenReduced(next, prow + 1, pcol + 1, swaps1);
  }

  /** Whenever `REF` gets through without dividing by zero it computes what
      the later partial-pivoting echelon computes, so its result is a row
      echelon form. */
  lemma RefFinishesInEchelonForm(m: Matrix)
    requires |m| > 0 && IsRect(m)
    requires PivotingFrom(m, 0, 0, 0, false).Reduced?
    ensures PivotingFrom(m, 0, 0, 0, false) == PivotingFrom(m, 0, 0, 0, true)
    ensures IsRowEchelon(PivotingFrom(m, 0, 0, 0, false).r.m)
  {
    RefAgreesWhenReduced(m, 0, 0, 0);
    PivotingReachesEchelon(m, 0, 0, 0);
  }

  /** A column that is zero from `prow` down, with a row below `prow`,
      sends `REF` into the division by zero. */
  lemma RefZeroColumnDividesByZero(out: Matrix, prow: nat, pcol: nat, swaps: nat)
    requires |out| > 0 && IsRect(out) && prow + 1 < |out| && pcol < Cols(out)
    requires forall k | prow <= k < |out| :: out[k][pcol] == 0.0
    ensures PivotingFrom(out, prow, pcol, swaps, false) == ZeroDivisor(prow, pcol)
  {
    RefStep(out, prow, pcol, swaps);
  }

  /** The smallest case: a zero column of two rows. The partial-pivoting
      echelon skips it. */
  lemma RefDividesByZeroOnZeroColumn()
    ensures PivotingFrom([[0.0], [0.0]], 0, 0, 0, false) == ZeroDivisor(0, 0)
    ensures PivotingFrom([[0.0], [0.0]], 0, 0, 0, true).Reduced?
  {
    var m: Matrix := [[0.0], [0.0]];
    assert PivotRow(m, 0, 0) == 0;
  }

  // ---------------------------------------------------------------------
  // Codec

  /** The older `truncate_zeroes`. */
  method TruncateZeroes(numStr: string) returns (r: string)
    ensures r == Truncated(Legacy, numStr)
  {
    var sepFound, zeroes: nat := false, 0;
    for i := 0 to |numStr|
      invariant zeroes < CutCount
      invariant CutPoint(Legacy, numStr, i, Scan(sepFound, false, zeroes))
        == CutPoint(Legacy, numStr, 0, Start)
    {
      var c := numStr[i];
      if c == '.' {
        sepFound := true;
        continue;
      }
      if sepFound && c == '0' {
        zeroes := zeroes + 1;
        if zeroes == CutCount {
          return numStr[..i + 1];
        }
      } else {
        zeroes := 0;
      }
    }
    return numStr;
  }

  /** Every entry of every row of `s` parses; otherwise the older
      `from_bytes` panics on `unwrap`. */
  predicate EveryEntryParses(s: string, parse: string -> Option<real>)
  {
    forall line, e | line in Codec.Split(s, ';') && e in Codec.Entries(line) :: parse(e).Some?
  }

  /** The older `from_bytes`: one row per ';'-piece holding the parsed
      ','-pieces, with no check that the rows are equally long. */
  function FromBytes(s: string, parse: string -> Option<real>): (m: Matrix)
    requires EveryEntryParses(s, parse)
    ensures |m| == |Codec.Split(s, ';')|
    ensures forall i | 0 <= i < |m| ::
      Codec.ParseRow(Codec.Entries(Codec.Split(s, ';')[i]), parse) == Some(m[i])
  {
    var lines := Codec.Split(s, ';');
    seq(|lines|, i requires 0 <= i < |lines| =>
      assert forall k | 0 <= k < |Codec.Entries(lines[i])| :: Codec.Entries(lines[i])[k] in Codec.Entries(lines[i]);
      Codec.ParseRow(Codec.Entries(lines[i]), parse).value)
  }

  /** Where the current `from_bytes` succeeds the older one reads the same
      matrix. */
  lemma FromBytesAgrees(s: string, parse: string -> Option<real>)
    requires Codec.Decode(s, parse).Ok?
    ensures EveryEntryParses(s, parse)
    ensures FromBytes(s, parse) == Codec.Decode(s, parse).value
  {
    var lines := Codec.Split(s, ';');
    Codec.DecodeMeaning(s, parse);
    Codec.DecodeLinesMeaning(lines, parse, None);
    forall line, e | line in lines && e in Codec.Entries(line)
      ensures parse(e).Some?
    {
      var i :| 0 <= i < |lines| && lines[i] == line;
      assert Codec.ParseRow(Codec.Entries(lines[i]), parse).Some?;
    }
  }

  /** The older `to_bytes`: as the current one, with the older truncation. */
  function ToBytes(m: Matrix, format: real -> string): string
  {
    Codec.Encode(m, format, Legacy)
  }

  /** Reading back what the older `to_bytes` wrote gives the matrix, as
      long as every entry's text avoids the separators and reads back. */
  lemma FromBytesToBytes(m: Matrix, format: real -> string, parse: string -> Option<real>)
    requires |m| > 0 && IsRect(m) && Cols(m) > 0
    requires forall i, j | 0 <= i < |m| && 0 <= j < |m[i]| :: Codec.ReadsBack(m[i][j], format, parse, Legacy)
    ensures EveryEntryParses(ToBytes(m, format), parse)
    ensures FromBytes(ToBytes(m, format), parse) == m
  {
    Codec.DecodeEncode(m, format, parse, Legacy);
    FromBytesAgrees(ToBytes(m, format), parse);
  }
}
