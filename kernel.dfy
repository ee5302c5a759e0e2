/** The generic matrix kernel of src/matrix.rs: constructors, entrywise
    arithmetic, the product, structural predicates and the checked row
    operations. Every operation copies its input and builds a new matrix,
    so each is a method that returns the new value. A Rust panic (a failed
    `assert_eq!`, an index out of bounds, `ncols()` on a matrix without
    rows) is a precondition; a returned `Err` is a `Result`. */
module Kernel {
  import opened Matrices

  const RowIndexError := "Row index exceeds last row"
  const SelfAddError := "Cannot add a row to itself"

  // ---------------------------------------------------------------------
  // Constructors

  /** `rows` copies of a row of `cols` entries all equal to `value`. */
  method Filled(rows: nat, cols: nat, value: real) returns (out: Matrix)
    ensures HasShape(out, rows, cols)
    ensures forall i, j | 0 <= i < rows && 0 <= j < cols :: out[i][j] == value
  {
    var filledRow := seq(cols, _ => value);
    out := [];
    for i := 0 to rows
      invariant |out| == i && forall k | 0 <= k < i :: out[k] == filledRow
    {
      out := out + [filledRow];
    }
  }

  method Zero(rows: nat, cols: nat) returns (out: Matrix)
    ensures HasShape(out, rows, cols)
    ensures forall i, j | 0 <= i < rows && 0 <= j < cols :: out[i][j] == 0.0
  {
    out := Filled(rows, cols, 0.0);
  }

  /** The identity: the zero matrix with its diagonal set to one. */
  method Id(dim: nat) returns (out: Matrix)
    ensures out == Identity(dim)
  {
    out := Zero(dim, dim);
    for i := 0 to dim
      invariant HasShape(out, dim, dim)
      invariant forall r, c | 0 <= r < dim && 0 <= c < dim ::
        out[r][c] == if r == c && r < i then 1.0 else 0.0
    {
      out := out[i := out[i][i := 1.0]];
    }
    forall r | 0 <= r < dim
      ensures out[r] == Identity(dim)[r]
    {
    }
  }

  /** Column `col` as a vector. */
  method GetVector(m: Matrix, col: nat) returns (out: Vector)
    requires forall i | 0 <= i < |m| :: col < |m[i]|
    ensures out == Column(m, col)
  {
    out := seq(|m|, _ => 0.0);
    for i := 0 to |m|
      invariant |out| == |m|
      invariant forall k | 0 <= k < i :: out[k] == m[k][col]
    {
      out := out[i := m[i][col]];
    }
  }

  // ---------------------------------------------------------------------
  // Entrywise operations

  method Transpose(m: Matrix) returns (out: Matrix)
    requires |m| > 0 && IsRect(m)
    ensures out == Transposed(m)
  {
    var rows, cols := |m|, Cols(m);
    out := Zero(cols, rows);
    for i := 0 to rows
      invariant HasShape(out, cols, rows)
      invariant forall j, k | 0 <= j < cols && 0 <= k < i :: out[j][k] == m[k][j]
      invariant forall j, k | 0 <= j < cols && i <= k < rows :: out[j][k] == 0.0
    {
      for j := 0 to cols
        invariant HasShape(out, cols, rows)
        invariant forall l, k | 0 <= l < cols && 0 <= k < i :: out[l][k] == m[k][l]
        invariant forall l, k | 0 <= l < cols && i < k < rows :: out[l][k] == 0.0
        invariant forall l | 0 <= l < j :: out[l][i] == m[i][l]
        invariant forall l | j <= l < cols :: out[l][i] == 0.0
      {
        out := out[j := out[j][i := m[i][j]]];
      }
    }
    ghost var t := Transposed(m);
    forall j | 0 <= j < cols
      ensures out[j] == t[j]
    {
    }
  }

  /** Every entry multiplied by `scalar`. */
  method Scale(m: Matrix, scalar: real) returns (out: Matrix)
    requires IsRect(m)
    ensures SameShape(out, m)
    ensures forall i, j | 0 <= i < |m| && 0 <= j < |m[i]| :: out[i][j] == m[i][j] * scalar
  {
    out := m;
    for i := 0 to |m|
      invariant SameShape(out, m)
      invariant forall k, j | 0 <= k < |m| && 0 <= j < |m[k]| ::
        out[k][j] == if k < i then m[k][j] * scalar else m[k][j]
    {
      for j := 0 to Cols(m)
        invariant SameShape(out, m)
        invariant forall k, l | 0 <= k < |m| && 0 <= l < |m[k]| ::
          out[k][l] == if k < i || (k == i && l < j) then m[k][l] * scalar else m[k][l]
      {
        out := out[i := out[i][j := out[i][j] * scalar]];
      }
    }
  }

  /** Entrywise sum; both shapes are asserted equal first. */
  method Add(a: Matrix, b: Matrix) returns (out: Matrix)
    requires |a| > 0 && |b| > 0 && IsRect(a) && IsRect(b)
    requires Cols(a) == Cols(b) && |a| == |b|
    ensures SameShape(out, a)
    ensures forall i, j | 0 <= i < |a| && 0 <= j < |a[i]| :: out[i][j] == a[i][j] + b[i][j]
  {
    out := a;
    for i := 0 to |a|
      invariant SameShape(out, a)
      invariant forall k, j | 0 <= k < |a| && 0 <= j < |a[k]| ::
        out[k][j] == if k < i then a[k][j] + b[k][j] else a[k][j]
    {
      for j := 0 to Cols(a)
        invariant SameShape(out, a)
        invariant forall k, l | 0 <= k < |a| && 0 <= l < |a[k]| ::
          out[k][l] == if k < i || (k == i && l < j) then a[k][l] + b[k][l] else a[k][l]
      {
        out := out[i := out[i][j := out[i][j] + b[i][j]]];
      }
    }
  }

  /** Entrywise difference over the shape of `a`. No shape is asserted:
      `b` only has to reach every entry of `a`, and its extra rows or
      columns are ignored. */
  method Sub(a: Matrix, b: Matrix) returns (out: Matrix)
    requires IsRect(a) && Covers(b, a)
    ensures SameShape(out, a)
    ensures forall i, j | 0 <= i < |a| && 0 <= j < |a[i]| :: out[i][j] == a[i][j] - b[i][j]
  {
    out := a;
    for i := 0 to |a|
      invariant SameShape(out, a)
      invariant forall k, j | 0 <= k < |a| && 0 <= j < |a[k]| ::
        out[k][j] == if k < i then a[k][j] - b[k][j] else a[k][j]
    {
      for j := 0 to Cols(a)
        invariant SameShape(out, a)
        invariant forall k, l | 0 <= k < |a| && 0 <= l < |a[k]| ::
          out[k][l] == if k < i || (k == i && l < j) then a[k][l] - b[k][l] else a[k][l]
      {
        out := out[i := out[i][j := out[i][j] - b[i][j]]];
      }
    }
  }

  /** Every entry negated. */
  method Neg(m: Matrix) returns (out: Matrix)
    requires IsRect(m)
    ensures SameShape(out, m)
    ensures forall i, j | 0 <= i < |m| && 0 <= j < |m[i]| :: out[i][j] == -m[i][j]
  {
    out := m;
    for i := 0 to |m|
      invariant SameShape(out, m)
      invariant forall k, j | 0 <= k < |m| && 0 <= j < |m[k]| ::
        out[k][j] == if k < i then -m[k][j] else m[k][j]
    {
      for j := 0 to Cols(m)
        invariant SameShape(out, m)
        invariant forall k, l | 0 <= k < |m| && 0 <= l < |m[k]| ::
          out[k][l] == if k < i || (k == i && l < j) then -m[k][l] else m[k][l]
      {
        out := out[i := out[i][j := -out[i][j]]];
      }
    }
  }

  /** Entrywise product over the shape of `a`; no shape is asserted. */
  method Hadamard(a: Matrix, b: Matrix) returns (out: Matrix)
    requires IsRect(a) && Covers(b, a)
    ensures SameShape(out, a)
    ensures forall i, j | 0 <= i < |a| && 0 <= j < |a[i]| :: out[i][j] == a[i][j] * b[i][j]
  {
    out := a;
    for i := 0 to |a|
      invariant SameShape(out, a)
      invariant forall k, j | 0 <= k < |a| && 0 <= j < |a[k]| ::
        out[k][j] == if k < i then a[k][j] * b[k][j] else a[k][j]
    {
      for j := 0 to Cols(a)
        invariant SameShape(out, a)
        invariant forall k, l | 0 <= k < |a| && 0 <= l < |a[k]| ::
          out[k][l] == if k < i || (k == i && l < j) then a[k][l] * b[k][l] else a[k][l]
      {
        out := out[i := out[i][j := out[i][j] * b[i][j]]];
      }
    }
  }

  // ---------------------------------------------------------------------
  // Products

  /** The matrix product; `a.ncols() == b.nrows()` is asserted. Each entry
      is accumulated over `k` in index order. */
  method Mul(a: Matrix, b: Matrix) returns (out: Matrix)
    requires |a| > 0 && |b| > 0 && IsRect(a) && IsRect(b) && Cols(a) == |b|
    ensures out == Product(a, b)
  {
    ghost var p := Product(a, b);
    var rows, cols := |a|, Cols(b);
    out := Zero(rows, cols);
    for i := 0 to rows
      invariant HasShape(out, rows, cols)
      invariant forall k | 0 <= k < i :: out[k] == p[k]
      invariant forall k, l | i <= k < rows && 0 <= l < cols :: out[k][l] == 0.0
    {
      for j := 0 to cols
        invariant HasShape(out, rows, cols)
        invariant forall k | 0 <= k < i :: out[k] == p[k]
        invariant forall k, l | i < k < rows && 0 <= l < cols :: out[k][l] == 0.0
        invariant forall l | 0 <= l < cols :: out[i][l] == if l < j then p[i][l] else 0.0
      {
        ghost var col := Column(b, j);
        for k := 0 to |b|
          invariant HasShape(out, rows, cols)
          invariant forall r | 0 <= r < i :: out[r] == p[r]
          invariant forall r, l | i < r < rows && 0 <= l < cols :: out[r][l] == 0.0
          invariant forall l | 0 <= l < cols && l != j :: out[i][l] == if l < j then p[i][l] else 0.0
          invariant out[i][j] == DotTo(a[i], col, k)
        {
          out := out[i := out[i][j := out[i][j] + a[i][k] * b[k][j]]];
        }
      }
      assert out[i] == p[i];
    }
  }

  /** The matrix times a column vector; a vector of the wrong length is
      a recoverable error. */
  method MulVector(m: Matrix, v: Vector) returns (r: Result<Vector>)
    requires |m| > 0 && IsRect(m)
    ensures r.Err? <==> |v| != Cols(m)
    ensures r.Err? ==> r.msg == "Vector does not have same dimension as matrix"
    ensures r.Ok? ==> r.value == TimesVector(m, v)
  {
    if |v| != Cols(m) {
      return Err("Vector does not have same dimension as matrix");
    }
    var res: Vector := [];
    for i := 0 to |m|
      invariant |res| == i && forall k | 0 <= k < i :: res[k] == Dot(m[k], v)
    {
      var entry := 0.0;
      for j := 0 to Cols(m)
        invariant entry == DotTo(m[i], v, j)
      {
        entry := entry + m[i][j] * v[j];
      }
      res := res + [entry];
    }
    r := Ok(res);
  }

  // ---------------------------------------------------------------------
  // Structural predicates

  method IsSymmetric(m: Matrix) returns (b: bool)
    requires |m| > 0 && IsRect(m)
    ensures b <==> (IsSquare(m) &&
      forall i, j | 0 <= i < |m| && 0 <= j < |m| :: i != j ==> m[i][j] == m[j][i])
  {
    if !IsSquare(m) {
      return false;
    }
    for i := 0 to |m|
      invariant forall k, j | 0 <= k < i && 0 <= j < |m| :: k != j ==> m[k][j] == m[j][k]
    {
      for j := 0 to Cols(m)
        invariant forall l | 0 <= l < j :: i != l ==> m[i][l] == m[l][i]
      {
        if i != j && m[i][j] != m[j][i] {
          return false;
        }
      }
    }
    return true;
  }

  method IsSkewSymmetric(m: Matrix) returns (b: bool)
    requires |m| > 0 && IsRect(m)
    ensures b <==> (IsSquare(m) &&
      forall i, j | 0 <= i < |m| && 0 <= j < |m| :: m[i][j] == -m[j][i])
  {
    if !IsSquare(m) {
      return false;
    }
    for i := 0 to |m|
      invariant forall k, j | 0 <= k < i && 0 <= j < |m| :: m[k][j] == -m[j][k]
    {
      for j := 0 to Cols(m)
        invariant forall l | 0 <= l < j :: m[i][l] == -m[l][i]
      {
        if m[i][j] != -m[j][i] {
          return false;
        }
      }
    }
    return true;
  }

  method IsDiagonal(m: Matrix) returns (b: bool)
    requires |m| > 0 && IsRect(m)
    ensures b <==> (IsSquare(m) &&
      forall i, j | 0 <= i < |m| && 0 <= j < |m| :: i != j ==> m[i][j] == 0.0)
  {
    if !IsSquare(m) {
      return false;
    }
    for i := 0 to |m|
      invariant forall k, j | 0 <= k < i && 0 <= j < |m| :: k != j ==> m[k][j] == 0.0
    {
      for j := 0 to Cols(m)
        invariant forall l | 0 <= l < j :: i != l ==> m[i][l] == 0.0
      {
        if i != j && m[i][j] != 0.0 {
          return false;
        }
      }
    }
    return true;
  }

  // ---------------------------------------------------------------------
  // Checked row operations

  function RowSwap(m: Matrix, r1: nat, r2: nat): (r: Result<Matrix>)
    ensures r.Err? <==> r1 >= |m| || r2 >= |m|
    ensures r.Err? ==> r.msg == RowIndexError
    ensures r.Ok? ==> |r.value| == |m| && r.value[r1] == m[r2] && r.value[r2] == m[r1]
    ensures r.Ok? ==> forall k | 0 <= k < |m| && k != r1 && k != r2 :: r.value[k] == m[k]
  {
    if r1 >= |m| || r2 >= |m| then Err(RowIndexError) else Ok(RowSwapped(m, r1, r2))
  }

  function RowScale(m: Matrix, row: nat, c: real): (r: Result<Matrix>)
    ensures r.Err? <==> row >= |m|
    ensures r.Err? ==> r.msg == RowIndexError
    ensures r.Ok? ==> SameShape(r.value, m)
    ensures r.Ok? ==> forall k | 0 <= k < |m[row]| :: r.value[row][k] == m[row][k] * c
    ensures r.Ok? ==> forall k | 0 <= k < |m| && k != row :: r.value[k] == m[k]
  {
    if row >= |m| then Err(RowIndexError) else Ok(RowScaled(m, row, c))
  }

  /** What the index checks of `rowadd` decide, in the order written:
      the range check only fires when both rows are missing. Past it the
      loop reads row `r2` at once, and writes row `r1` only for an entry
      of row `r2`. */
  datatype RowAddCheck = Rejected(msg: string) | IndexPanic | Proceeds

  function RowAddGuard(m: Matrix, r1: nat, r2: nat): (g: RowAddCheck)
    ensures g.Rejected? <==> (r1 >= |m| && r2 >= |m|) || r1 == r2
    ensures g.IndexPanic? <==> (r1 < |m| && r2 >= |m|) || (r1 >= |m| && r2 < |m| && |m[r2]| > 0)
    ensures g.Proceeds? <==> r1 != r2 && r2 < |m| && (r1 < |m| || |m[r2]| == 0)
  {
    if r1 >= |m| && r2 >= |m| then Rejected(RowIndexError)
    else if r1 == r2 then Rejected(SelfAddError)
    else if r2 >= |m| || (r1 >= |m| && |m[r2]| > 0) then IndexPanic
    else Proceeds
  }

  /** Adds `c` times row `r2` to row `r1`. When `r2` is out of range, or
      `r1` is and row `r2` has an entry, the check lets the call through
      and the indexing panics, so those cases are excluded here. With `r1`
      out of range and an empty row `r2` the matrix comes back unchanged. */
  method RowAdd(m: Matrix, r1: nat, r2: nat, c: real) returns (r: Result<Matrix>)
    requires IsRect(m)
    requires !RowAddGuard(m, r1, r2).IndexPanic?
    ensures r.Err? <==> (r1 >= |m| && r2 >= |m|) || r1 == r2
    ensures r.Err? ==> r.msg == if r1 >= |m| then RowIndexError else SelfAddError
    ensures r.Ok? ==> SameShape(r.value, m)
    ensures r.Ok? && r1 < |m| ==> forall k | 0 <= k < |m[r1]| :: r.value[r1][k] == m[r1][k] + c * m[r2][k]
    ensures r.Ok? ==> forall k | 0 <= k < |m| && k != r1 :: r.value[k] == m[k]
  {
    if r1 >= |m| && r2 >= |m| {
      return Err(RowIndexError);
    }
    if r1 == r2 {
      return Err(SelfAddError);
    }
    var out := m;
    for i := 0 to |m[r2]|
      invariant SameShape(out, m)
      invariant forall k | 0 <= k < |m| && k != r1 :: out[k] == m[k]
      invariant r1 < |m| ==> forall k | 0 <= k < |m[r1]| :: out[r1][k] == if k < i then m[r1][k] + c * m[r2][k] else m[r1][k]
    {
      out := out[r1 := out[r1][i := out[r1][i] + c * m[r2][i]]];
    }
    r := Ok(out);
  }

  /** `rowadd` with the range check written with `||`: every out-of-range
      index is reported, and nothing panics. */
  method RowAddChecked(m: Matrix, r1: nat, r2: nat, c: real) returns (r: Result<Matrix>)
    requires IsRect(m)
    ensures r.Err? <==> r1 >= |m| || r2 >= |m| || r1 == r2
    ensures r.Err? ==> r.msg == if r1 >= |m| || r2 >= |m| then RowIndexError else SelfAddError
    ensures r.Ok? ==> r.value == RowAdded(m, r1, r2, c)
  {
    if r1 >= |m| || r2 >= |m| {
      return Err(RowIndexError);
    }
    if r1 == r2 {
      return Err(SelfAddError);
    }
    r := RowAdd(m, r1, r2, c);
    ghost var expected := RowAdded(m, r1, r2, c);
    assert |expected[r1]| == |m[r1]| == |r.value[r1]|;
    assert forall k | 0 <= k < |m[r1]| :: r.value[r1][k] == expected[r1][k];
    assert r.value[r1] == expected[r1];
    assert forall k | 0 <= k < |m| :: r.value[k] == expected[k];
  }

  // ---------------------------------------------------------------------
  // Submatrices and block operations

  /** Removes row `row` and column `col`. */
  method Submatrix(m: Matrix, row: nat, col: nat) returns (r: Result<Matrix>)
    requires IsRect(m)
    ensures r.Err? <==> row >= |m| || col >= Cols(m)
    ensures r.Err? ==> r.msg == if row >= |m| then "Cannot remove row that does not exist"
                                else "Cannot remove column that does not exist"
    ensures r.Ok? ==> HasShape(r.value, |m| - 1, Cols(m) - 1)
    ensures r.Ok? ==> forall i, j | 0 <= i < |m| - 1 && 0 <= j < Cols(m) - 1 ::
      r.value[i][j] == m[if i < row then i else i + 1][if j < col then j else j + 1]
  {
    if row >= |m| {
      return Err("Cannot remove row that does not exist");
    }
    if col >= Cols(m) {
      return Err("Cannot remove column that does not exist");
    }
    var out: Matrix := [];
    for i := 0 to |m|
      invariant |out| == if i <= row then i else i - 1
      invariant forall k | 0 <= k < |out| :: |out[k]| == Cols(m) - 1
      invariant forall k, j | 0 <= k < |out| && 0 <= j < Cols(m) - 1 ::
        out[k][j] == m[if k < row then k else k + 1][if j < col then j else j + 1]
    {
      if i == row {
        continue;
      }
      var matRow := m[i];
      matRow := matRow[..col] + matRow[col + 1..];
      out := out + [matRow];
    }
    r := Ok(out);
  }

  /** Overwrites the block at (`row`, `col`) with `other`. There is no
      bounds check: `other` must fit. */
  method EmbedMatrix(m: Matrix, other: Matrix, row: nat, col: nat) returns (out: Matrix)
    requires IsRect(m) && IsRect(other)
    requires row + |other| <= |m|
    requires |other| > 0 ==> col + Cols(other) <= Cols(m)
    ensures SameShape(out, m)
    ensures forall i, j | 0 <= i < |m| && 0 <= j < |m[i]| ::
      out[i][j] == if row <= i < row + |other| && col <= j < col + |other[i - row]|
                   then other[i - row][j - col] else m[i][j]
  {
    out := m;
    for i := 0 to |other|
      invariant SameShape(out, m)
      invariant forall k, j | 0 <= k < |m| && 0 <= j < |m[k]| ::
        out[k][j] == if row <= k < row + i && col <= j < col + |other[k - row]|
                     then other[k - row][j - col] else m[k][j]
    {
      for j := 0 to Cols(other)
        invariant SameShape(out, m)
        invariant forall k, l | 0 <= k < |m| && 0 <= l < |m[k]| ::
          out[k][l] == if (row <= k < row + i && col <= l < col + |other[k - row]|)
                          || (k == row + i && col <= l < col + j)
                       then other[k - row][l - col] else m[k][l]
      {
        out := out[i + row := out[i + row][j + col := other[i][j]]];
      }
    }
  }

  /** Places `right` to the right of `m`, row by row. */
  method AugmentCols(m: Matrix, right: Matrix) returns (r: Result<Matrix>)
    ensures r.Err? <==> |m| != |right|
    ensures r.Err? ==> r.msg == "Cannot horizontally augment matrices of different heights"
    ensures r.Ok? ==> r.value == Beside(m, right)
    ensures r.Ok? ==> forall i | 0 <= i < |m| ::
      r.value[i][..|m[i]|] == m[i] && r.value[i][|m[i]|..] == right[i]
  {
    if |m| != |right| {
      return Err("Cannot horizontally augment matrices of different heights");
    }
    var augmented := m;
    for i := 0 to |m|
      invariant |augmented| == |m|
      invariant forall k | 0 <= k < |m| :: augmented[k] == if k < i then m[k] + right[k] else m[k]
    {
      augmented := augmented[i := augmented[i] + right[i]];
    }
    r := Ok(augmented);
  }

  /** Places `below` under `m`. */
  method AugmentRows(m: Matrix, below: Matrix) returns (r: Result<Matrix>)
    requires |m| > 0 && |below| > 0
    ensures r.Err? <==> Cols(m) != Cols(below)
    ensures r.Err? ==> r.msg == "Cannot vertically augment matrices of different widths"
    ensures r.Ok? ==> |r.value| == |m| + |below|
    ensures r.Ok? ==> r.value[..|m|] == m && r.value[|m|..] == below
  {
    if Cols(m) != Cols(below) {
      return Err("Cannot vertically augment matrices of different widths");
    }
    var augmented := m;
    for i := 0 to |below|
      invariant augmented == m + below[..i]
    {
      augmented := augmented + [below[i]];
    }
    r := Ok(augmented);
  }

  // ---------------------------------------------------------------------
  // Trace

  function Trace(m: Matrix): (r: Result<real>)
    requires |m| > 0 && IsRect(m)
    ensures r.Err? <==> !IsSquare(m)
    ensures r.Err? ==> r.msg == "Cannot compute trace of non-square matrix"
  {
    if !IsSquare(m) then Err("Cannot compute trace of non-square matrix")
    else Ok(DiagonalSum(m, |m|))
  }

  lemma {:induction false} DiagonalSumTransposed(m: Matrix, k: nat)
    requires |m| > 0 && IsRect(m) && IsSquare(m) && k <= |m|
    ensures DiagonalSum(Transposed(m), k) == DiagonalSum(m, k)
  {
    if k > 0 {
      DiagonalSumTransposed(m, k - 1);
    }
  }

  /** Transposing keeps the diagonal, so the trace is unchanged. */
  lemma TraceOfTranspose(m: Matrix)
    requires |m| > 0 && IsRect(m) && IsSquare(m)
    ensures Trace(Transposed(m)) == Trace(m)
  {
    DiagonalSumTransposed(m, |m|);
  }

  lemma {:induction false} DiagonalSumIdentity(n: nat, k: nat)
    requires k <= n
    ensures DiagonalSum(Identity(n), k) == k as real
  {
    if k > 0 {
      DiagonalSumIdentity(n, k - 1);
    }
  }

  /** The identity of dimension `n` has trace `n`. */
  lemma TraceOfIdentity(n: nat)
    requires n > 0
    ensures Trace(Identity(n)) == Ok(n as real)
  {
    DiagonalSumIdentity(n, n);
  }
}
