/** Value-level definitions of the dense-matrix kernel: the shapes a matrix
    can have, and reference definitions of the products, powers and
    elementary row operations that the imperative kernel is proved against.
    A matrix is its list of rows; the scalar type is modelled by `real`. */
module Matrices {

  type Matrix = seq<seq<real>>
  type Vector = seq<real>

  /** The error half of every fallible kernel operation carries a message. */
  datatype Result<T> = Ok(value: T) | Err(msg: string)

  /** A value that may be absent. */
  datatype Option<T> = None | Some(value: T)

  /** Every row has the length of the first one (vacuous for no rows). */
  predicate IsRect(m: Matrix)
  {
    forall i | 0 <= i < |m| :: |m[i]| == |m[0]|
  }

  /** `a` has as many rows as `b`, row by row of the same length. */
  predicate SameShape(a: Matrix, b: Matrix)
  {
    |a| == |b| && forall i | 0 <= i < |a| :: |a[i]| == |b[i]|
  }

  /** Every entry of `a` has an entry at the same place in `b`. */
  predicate Covers(b: Matrix, a: Matrix)
  {
    |a| <= |b| && forall i | 0 <= i < |a| :: |a[i]| <= |b[i]|
  }

  /** `r` rows of `c` entries each. */
  predicate HasShape(m: Matrix, r: nat, c: nat)
  {
    |m| == r && forall i | 0 <= i < |m| :: |m[i]| == c
  }

  /** The column count is read from the first row, so it needs one. */
  function Cols(m: Matrix): nat
    requires |m| > 0
  {
    |m[0]|
  }

  predicate IsSquare(m: Matrix)
    requires |m| > 0
  {
    |m| == Cols(m)
  }

  /** A non-empty square matrix of side `n`. */
  predicate IsSquareOf(m: Matrix, n: nat)
  {
    n > 0 && HasShape(m, n, n)
  }

  /** Sum of the first `n` products `u[k] * v[k]`, accumulated in index
      order as the kernel's loops do. */
  function DotTo(u: Vector, v: Vector, n: nat): real
    requires n <= |u| && n <= |v|
  {
    if n == 0 then 0.0 else DotTo(u, v, n - 1) + u[n - 1] * v[n - 1]
  }

  function Dot(u: Vector, v: Vector): real
    requires |u| == |v|
  {
    DotTo(u, v, |u|)
  }

  /** Column `j` read top to bottom. */
  function Column(m: Matrix, j: nat): (v: Vector)
    requires forall i | 0 <= i < |m| :: j < |m[i]|
    ensures |v| == |m| && forall i | 0 <= i < |m| :: v[i] == m[i][j]
  {
    seq(|m|, i requires 0 <= i < |m| => m[i][j])
  }

  /** The row vector `u` times the matrix `b` (whose rows have `s` entries). */
  function RowTimes(u: Vector, b: Matrix, s: nat): (w: Vector)
    requires |u| == |b| && forall k | 0 <= k < |b| :: |b[k]| == s
    ensures |w| == s && forall l | 0 <= l < s :: w[l] == Dot(u, Column(b, l))
  {
    seq(s, l requires 0 <= l < s => Dot(u, Column(b, l)))
  }

  /** The matrix `b` times the column vector `v`. */
  function TimesVector(b: Matrix, v: Vector): (w: Vector)
    requires forall k | 0 <= k < |b| :: |b[k]| == |v|
    ensures |w| == |b| && forall k | 0 <= k < |b| :: w[k] == Dot(b[k], v)
  {
    seq(|b|, k requires 0 <= k < |b| => Dot(b[k], v))
  }

  /** Matrix product: entry (i, j) is the dot product of row i of `a`
      and column j of `b`. */
  function Product(a: Matrix, b: Matrix): (p: Matrix)
    requires |b| > 0 && IsRect(b)
    requires forall i | 0 <= i < |a| :: |a[i]| == |b|
    ensures HasShape(p, |a|, Cols(b))
    ensures forall i, j | 0 <= i < |a| && 0 <= j < Cols(b) :: p[i][j] == Dot(a[i], Column(b, j))
  {
    seq(|a|, i requires 0 <= i < |a| => RowTimes(a[i], b, Cols(b)))
  }

  /** Ones on the diagonal, zeros elsewhere. */
  function Identity(n: nat): (m: Matrix)
    ensures HasShape(m, n, n)
    ensures forall i, j | 0 <= i < n && 0 <= j < n :: m[i][j] == if i == j then 1.0 else 0.0
  {
    seq(n, i => seq(n, j => if i == j then 1.0 else 0.0))
  }

  function Transposed(m: Matrix): (t: Matrix)
    requires |m| > 0 && IsRect(m)
    ensures HasShape(t, Cols(m), |m|)
    ensures forall j, i | 0 <= j < Cols(m) && 0 <= i < |m| :: t[j][i] == m[i][j]
  {
    seq(Cols(m), j requires 0 <= j < Cols(m) => seq(|m|, i requires 0 <= i < |m| => m[i][j]))
  }

  /** Rows `r1` and `r2` trade places. */
  function RowSwapped(m: Matrix, r1: nat, r2: nat): (s: Matrix)
    requires r1 < |m| && r2 < |m|
    ensures |s| == |m| && s[r1] == m[r2] && s[r2] == m[r1]
    ensures forall k | 0 <= k < |m| && k != r1 && k != r2 :: s[k] == m[k]
  {
    m[r1 := m[r2]][r2 := m[r1]]
  }

  /** Every entry of row `r` multiplied by `c`. */
  function RowScaled(m: Matrix, r: nat, c: real): Matrix
    requires r < |m|
  {
    m[r := seq(|m[r]|, k requires 0 <= k < |m[r]| => m[r][k] * c)]
  }

  /** Row `r1` plus `c` times row `r2`, stored in row `r1`. */
  function RowAdded(m: Matrix, r1: nat, r2: nat, c: real): Matrix
    requires r1 < |m| && r2 < |m| && |m[r2]| >= |m[r1]|
  {
    m[r1 := seq(|m[r1]|, k requires 0 <= k < |m[r1]| => m[r1][k] + c * m[r2][k])]
  }

  /** Row `i` of `a` followed by row `i` of `b`, for every `i`. */
  function Beside(a: Matrix, b: Matrix): (m: Matrix)
    requires |a| == |b|
    ensures |m| == |a| && forall i | 0 <= i < |a| :: m[i] == a[i] + b[i]
  {
    seq(|a|, i requires 0 <= i < |a| => a[i] + b[i])
  }

  /** `m` multiplied by itself `k` times; the identity for `k == 0`. */
  function Power(m: Matrix, k: nat): (p: Matrix)
    requires |m| > 0 && IsSquareOf(m, |m|)
    ensures HasShape(p, |m|, |m|)
    decreases k
  {
    if k == 0 then Identity(|m|) else Product(Power(m, k - 1), m)
  }

  /** Sum of the diagonal entries, in row order. */
  function DiagonalSum(m: Matrix, n: nat): real
    requires n <= |m| && forall i | 0 <= i < n :: i < |m[i]|
  {
    if n == 0 then 0.0 else DiagonalSum(m, n - 1) + m[n - 1][n - 1]
  }

  /** Product of the first `n` diagonal entries, in row order. */
  function DiagonalProduct(m: Matrix, n: nat): real
    requires n <= |m| && forall i | 0 <= i < n :: i < |m[i]|
  {
    if n == 0 then 1.0 else DiagonalProduct(m, n - 1) * m[n - 1][n - 1]
  }

  // ---------------------------------------------------------------------
  // Algebra of the reference definitions

  lemma {:induction false} DotCombination(x: Vector, y: Vector, s: real, z: Vector, v: Vector, n: nat)
    requires n <= |x| && n <= |y| && n <= |z| && n <= |v|
    requires forall k | 0 <= k < n :: z[k] == x[k] + s * y[k]
    ensures DotTo(z, v, n) == DotTo(x, v, n) + s * DotTo(y, v, n)
  {
    if n > 0 {
      DotCombination(x, y, s, z, v, n - 1);
      var b := DotTo(y, v, n - 1);
      var xv, yv := x[n - 1] * v[n - 1], y[n - 1] * v[n - 1];
      assert z[n - 1] * v[n - 1] == xv + s * yv;
      assert s * (b + yv) == s * b + s * yv;
    }
  }

  /** The first `n` entries of `u` times the first `n` rows of `b`. */
  function PartialRowTimes(u: Vector, b: Matrix, s: nat, n: nat): (w: Vector)
    requires n <= |u| && n <= |b| && forall k | 0 <= k < |b| :: |b[k]| == s
    ensures |w| == s && forall l | 0 <= l < s :: w[l] == DotTo(u, Column(b, l), n)
  {
    seq(s, l requires 0 <= l < s => DotTo(u, Column(b, l), n))
  }

  /** `u` times (`b` times `v`) equals (`u` times `b`) times `v`, summing
      over the first `n` rows of `b`. */
  lemma {:induction false} DotRowTimes(u: Vector, b: Matrix, s: nat, v: Vector, n: nat)
    requires n <= |u| && n <= |b| && |v| == s && forall k | 0 <= k < |b| :: |b[k]| == s
    ensures Dot(PartialRowTimes(u, b, s, n), v) == DotTo(u, TimesVector(b, v), n)
  {
    if n == 0 {
      DotZero(v, PartialRowTimes(u, b, s, n), s);
    } else {
      DotRowTimes(u, b, s, v, n - 1);
      DotRowTimesStep(u, b, s, v, n);
    }
  }

  /** One more row of `b` adds `u[n - 1]` times that row's dot product
      with `v` to both sides. */
  lemma DotRowTimesStep(u: Vector, b: Matrix, s: nat, v: Vector, n: nat)
    requires 0 < n <= |u| && n <= |b| && |v| == s && forall k | 0 <= k < |b| :: |b[k]| == s
    requires Dot(PartialRowTimes(u, b, s, n - 1), v) == DotTo(u, TimesVector(b, v), n - 1)
    ensures Dot(PartialRowTimes(u, b, s, n), v) == DotTo(u, TimesVector(b, v), n)
  {
    var w, w' := PartialRowTimes(u, b, s, n), PartialRowTimes(u, b, s, n - 1);
    PartialRowTimesStep(u, b, s, n);
    DotAddScaled(w, w', b[n - 1], u[n - 1], v);
    var tv := TimesVector(b, v);
    assert tv[n - 1] == Dot(b[n - 1], v);
    assert DotTo(u, tv, n) == DotTo(u, tv, n - 1) + u[n - 1] * tv[n - 1];
  }

  /** `Dot` is linear in its first argument. */
  lemma DotAddScaled(w: Vector, x: Vector, y: Vector, c: real, v: Vector)
    requires |w| == |v| && |x| == |v| && |y| == |v|
    requires forall k | 0 <= k < |v| :: w[k] == x[k] + c * y[k]
    ensures Dot(w, v) == Dot(x, v) + c * Dot(y, v)
  {
    DotCombination(x, y, c, w, v, |v|);
  }

  lemma PartialRowTimesStep(u: Vector, b: Matrix, s: nat, n: nat)
    requires 0 < n <= |u| && n <= |b| && forall k | 0 <= k < |b| :: |b[k]| == s
    ensures forall l | 0 <= l < s ::
      PartialRowTimes(u, b, s, n)[l] == PartialRowTimes(u, b, s, n - 1)[l] + u[n - 1] * b[n - 1][l]
  {
  }

  lemma ProductAssociative(a: Matrix, b: Matrix, c: Matrix)
    requires |b| > 0 && IsRect(b) && |c| > 0 && IsRect(c)
    requires forall i | 0 <= i < |a| :: |a[i]| == |b|
    requires Cols(b) == |c|
    ensures Product(Product(a, b), c) == Product(a, Product(b, c))
  {
    var ab, bc := Product(a, b), Product(b, c);
    if |ab| > 0 {
      var lhs, rhs := Product(ab, c), Product(a, bc);
      forall i | 0 <= i < |a|
        ensures lhs[i] == rhs[i]
      {
        forall l | 0 <= l < Cols(c)
          ensures lhs[i][l] == rhs[i][l]
        {
          assert ab[i] == PartialRowTimes(a[i], b, Cols(b), |b|);
          assert Column(bc, l) == TimesVector(b, Column(c, l));
          DotRowTimes(a[i], b, Cols(b), Column(c, l), |b|);
        }
      }
    }
  }

  lemma {:induction false} DotUnit(u: Vector, e: Vector, j: nat, n: nat)
    requires n <= |u| && n <= |e| && j < |e|
    requires forall k | 0 <= k < |e| :: e[k] == if k == j then 1.0 else 0.0
    ensures DotTo(u, e, n) == (if j < n then u[j] else 0.0)
    ensures DotTo(e, u, n) == (if j < n then u[j] else 0.0)
  {
    if n > 0 {
      DotUnit(u, e, j, n - 1);
    }
  }

  lemma {:induction false} DotZero(u: Vector, e: Vector, n: nat)
    requires n <= |u| && n <= |e| && forall k | 0 <= k < n :: e[k] == 0.0
    ensures DotTo(u, e, n) == 0.0 && DotTo(e, u, n) == 0.0
  {
    if n > 0 {
      DotZero(u, e, n - 1);
    }
  }

  lemma ProductIdentityRight(m: Matrix, n: nat)
    requires n > 0 && forall i | 0 <= i < |m| :: |m[i]| == n
    ensures Product(m, Identity(n)) == m
  {
    var p := Product(m, Identity(n));
    forall i | 0 <= i < |m|
      ensures p[i] == m[i]
    {
      forall j | 0 <= j < n
        ensures p[i][j] == m[i][j]
      {
        DotUnit(m[i], Column(Identity(n), j), j, n);
      }
    }
  }

  lemma ProductIdentityLeft(m: Matrix, n: nat)
    requires n > 0 && |m| == n && IsRect(m)
    ensures Product(Identity(n), m) == m
  {
    var p := Product(Identity(n), m);
    forall i | 0 <= i < n
      ensures p[i] == m[i]
    {
      forall j | 0 <= j < Cols(m)
        ensures p[i][j] == m[i][j]
      {
        DotUnit(Column(m, j), Identity(n)[i], i, n);
      }
    }
  }

  /** Powers of one matrix add their exponents when multiplied. */
  lemma {:induction false} PowerAdd(m: Matrix, p: nat, q: nat)
    requires |m| > 0 && IsSquareOf(m, |m|)
    ensures Product(Power(m, p), Power(m, q)) == Power(m, p + q)
    decreases q
  {
    if q == 0 {
      ProductIdentityRight(Power(m, p), |m|);
    } else {
      PowerAdd(m, p, q - 1);
      ProductAssociative(Power(m, p), Power(m, q - 1), m);
    }
  }

  lemma TransposeInvolutive(m: Matrix)
    requires |m| > 0 && IsRect(m) && Cols(m) > 0
    ensures Transposed(Transposed(m)) == m
  {
    var t := Transposed(Transposed(m));
    forall i | 0 <= i < |m|
      ensures t[i] == m[i]
    {
    }
  }
}
