# typst_linalg matrix kernel in Dafny

This project models the dense-matrix core of typst_linalg and proves properties of that model. typst_linalg is a Rust library that lets typst documents do linear algebra.

A matrix is a sequence of rows, `seq<seq<real>>`. The operations that need it require rectangularity (`IsRect`) and at least one row, because the source reads its column count from row 0. Dafny's exact `real` stands in for the scalar type:

- In the exact instantiation (`Fraction`) the model is exact.
- In the `f64` instantiation the model ignores rounding.

The modules follow the source:

- `Matrices` holds specification functions: the product, identity, transpose, the three row operations and matrix powers. It also holds the algebra about them, such as associativity, identity laws, `A^(a+b) = A^a A^b` and transpose being an involution.
- `Kernel` models the generic kernel of `src/matrix.rs`: constructors, arithmetic, predicates, the checked row operations, submatrix/embedding/augmentation and `trace`. Each loop is a method proved against a specification function or stated entry by entry.
- `Elimination` models both `echelon` implementations and the dispatch between them:
  - the generic one, first as written (with `prow = i` after a swap, see Findings) and then corrected;
  - the `f64` one with partial pivoting, whose pivot is the first row of largest absolute value.

  Each loop is proved against a recursive function that follows one iteration per call. The `f64` function and the corrected generic one are proved to reach row echelon form; the generic one as written is shown to fail in two ways. It can divide by zero, and when the pivot is found in the last row it stops at once with a matrix that is not in row echelon form, so that `det` and `is_invertible` call an invertible matrix singular. The dispatch `EchelonOf` selects the `f64` echelon for `Float` and the corrected generic echelon for `Exact`, so everything built on it (`det`, `is_invertible`, `reduced_echelon`, `inverse`, `powi`) is modelled with the correction for exact scalars.
- `Derived` models `det` and `is_invertible`. It proves that testing the bottom-right entry of the echelon form is the same as testing the determinant for zero. It also proves that both echelons leave an upper triangular matrix with a nonzero diagonal unchanged, so that its determinant is the product of its own diagonal for either scalar kind; the identity, with determinant 1, is one such matrix.
- `Augmented` follows `[m | I]`, the augmented matrix `inverse` starts from, through both echelons. Every row operation they apply keeps it of the form `[l | r]` with `r * m == l`, and the left half of the echelon of `[m | I]` is the echelon of `m`.
- `ReducedForm` models `reduced_echelon` and proves that its result is in reduced row echelon form. It also models `inverse` and proves that, for an invertible matrix, the result times `m` is the identity. It models `powi` with its square-and-multiply loop proved against `Power`.
- `Truncation` models `truncate_zeroes`, both the current rule of `src/common.rs` and the older rule of `examples/linalg/src/matrix.rs`. The loop is proved against a recursive scan. The scan is proved to cut exactly where the scan's own step, folded over prefixes, first reaches ten. `CutEndsCountedWindow` characterises the cut independently of the step: it ends a stretch after a `.` holding exactly ten counted zeros and nothing that resets the counter.
- `Codec` models `from_bytes` and `to_bytes`:
  - splitting on `;` and `,`, with the two error messages;
  - the two round trips `Decode(Encode(m)) == Ok(m)` and `Encode(Decode(s)) == s`, under the condition that each scalar's text reads back.
- `Linalg` models the older `f64` snapshot in `examples/linalg/src/matrix.rs`: unchecked arithmetic and row operations, `REF`, the panicking `from_bytes` and the `to_bytes` that uses the older truncation.

Scalar parsing and formatting (`T::from_str`, `to_string`) are parameters of the codec functions: `parse: string -> Option<real>` and `format: real -> string`.

In the zero-truncation rule a digit 1–9 only sets `nonzero_found` and does not reset the zero counter (`src/common.rs:8-9`). Only a character that is not `.`, a digit 1–9 or a counted `0` resets it. `Truncation.ScatteredZeros` shows the consequence on strings such as `1.00000100000001`.

## Model

| member | source | states |
|---|---|---|
| Matrices.TransposeInvolutive | src/matrix.rs:208-216 | transposing twice returns the original matrix when it has at least one row and one column |
| Matrices.ProductAssociative | src/matrix.rs:119-133 | the matrix product that `Mul` computes is associative, so the repeated products in `powi` may be grouped freely |
| Matrices.ProductIdentityLeft | src/matrix.rs:191-197 | `id(n) * A == A` for every matrix with n rows |
| Matrices.ProductIdentityRight | src/matrix.rs:191-197 | `A * id(n) == A` for every matrix with n columns |
| Matrices.PowerAdd | src/matrix.rs:440-465 | `A^(a+b) == A^a * A^b`, the law the square-and-multiply loop of `powi` relies on |
| Kernel.Filled | src/matrix.rs:178-185 | the result has the requested shape and every entry equals the fill value |
| Kernel.Zero | src/matrix.rs:187-189 | a rows×cols matrix of zeros |
| Kernel.Id | src/matrix.rs:191-197 | the result is the identity matrix of the given size |
| Kernel.GetVector | src/matrix.rs:199-206 | the result is column `col`, one entry per row |
| Kernel.Transpose | src/matrix.rs:208-216 | the result is the transpose: c×r with `out[j][i] == m[i][j]` |
| Kernel.Scale | src/matrix.rs:218-226 | same shape, and every entry is multiplied by the scalar |
| Kernel.Add | src/matrix.rs:37-65 | demands equal row and column counts (the two `assert_eq!`); the sum is entrywise and keeps the shape |
| Kernel.Sub | src/matrix.rs:93-117 | no shape check: only requires `rhs` to cover `self`; the difference is entrywise with the shape of `self` |
| Kernel.Neg | src/matrix.rs:67-91 | same shape, every entry negated |
| Kernel.Hadamard | src/matrix.rs:317-325 | same shape, entrywise product with `other` |
| Kernel.Mul | src/matrix.rs:119-149 | demands `ncols(self) == nrows(rhs)`; the result is the matrix product, with entry (i,j) = Σ_k `self[i][k]*rhs[k][j]` |
| Kernel.MulVector | src/matrix.rs:270-283 | an error with the dimension message exactly when the vector length differs from `ncols`; otherwise the matrix-vector product |
| Kernel.IsSymmetric | src/matrix.rs:228-240 | true exactly when the matrix is square and `m[i][j] == m[j][i]` for all i, j |
| Kernel.IsSkewSymmetric | src/matrix.rs:242-254 | true exactly when the matrix is square and `m[i][j] == -m[j][i]` for all i, j |
| Kernel.IsDiagonal | src/matrix.rs:256-268 | true exactly when the matrix is square and every off-diagonal entry is zero |
| Kernel.RowSwap | src/matrix.rs:285-292 | an error exactly when either index is out of range; otherwise the two rows are exchanged and every other row is kept |
| Kernel.RowScale | src/matrix.rs:294-301 | an error exactly when the row is out of range; otherwise that row is multiplied by c, the shape is kept and every other row is kept |
| Kernel.RowAddGuard | src/matrix.rs:303-315 | classifies the index check written with `&&`: the call is rejected exactly when both indices are out of range or they are equal; otherwise it panics exactly when `r2` is out of range, or when `r1` is out of range and row `r2` has an entry for the loop to add; it proceeds exactly when the indices differ, `r2` is in range and either `r1` is in range or row `r2` is empty |
| Kernel.RowAdd | src/matrix.rs:303-315 | as written: an error exactly when both indices are out of range or `r1 == r2`, with the message the guard order selects; otherwise row r1 (when it exists) becomes `r1 + c*r2` and every other row, r2 included, is unchanged, so an out-of-range `r1` with an empty row `r2` returns the matrix as it was |
| Kernel.RowAddChecked | src/matrix.rs:303-315 | corrected guard (`\|\|`): total, an error exactly when either index is out of range or they are equal, otherwise `RowAdded` |
| Kernel.Submatrix | src/matrix.rs:327-344 | an error exactly when the row or the column is out of range (row checked first); otherwise an (r-1)×(c-1) matrix with exactly that row and column removed |
| Kernel.EmbedMatrix | src/matrix.rs:346-354 | same shape; the entries inside the block at (row, col) come from `other` and all others are unchanged |
| Kernel.AugmentCols | src/matrix.rs:356-365 | an error exactly when the heights differ; otherwise each row is the row of `self` followed by the row of `other` |
| Kernel.AugmentRows | src/matrix.rs:367-376 | an error exactly when the widths differ; otherwise `self` is the top block and `other` the bottom block |
| Kernel.Trace | src/matrix.rs:378-384 | an error with the trace message exactly when the matrix is not square |
| Kernel.TraceOfTranspose | src/matrix.rs:378-384 | the trace of a square matrix equals the trace of its transpose |
| Kernel.TraceOfIdentity | src/matrix.rs:378-384 | the trace of `id(n)` is n |
| Elimination.EliminatedClearsColumn | src/matrix.rs:495-500 | one elimination step zeroes column `pcol` below the pivot row and leaves the rows up to the pivot row untouched |
| Elimination.EliminateBelow | src/matrix.rs:537-542 | the elimination loop computes `Eliminated`, whose rows below the pivot have `out[i][pcol] == 0` |
| Elimination.PivotRow | src/matrix.rs:520-529 | the pivot is the first row at or below `prow` whose entry in `pcol` has the largest absolute value |
| Elimination.MaxLeading | src/matrix.rs:520-529 | the scan returns that pivot row; it found a nonzero entry exactly when some entry at or below `prow` is nonzero, exactly when the pivot entry is nonzero |
| Elimination.EchelonPivoting | src/matrix.rs:512-553 | the `f64` echelon loop reaches the result of the one-iteration-per-call function `PivotingFrom`, which never divides by zero and counts one swap per `rowswap` |
| Elimination.PivotingStep | src/matrix.rs:519-550 | one pass of the loop body either skips a column that is zero from `prow` down or swaps the largest-magnitude pivot up and clears below it; `PivotingFrom` from the next column then gives what it gave before the pass |
| Elimination.PivotingFrom | src/matrix.rs:512-553 | the result keeps the shape, and the swap count rises by at most the number of rows left and at most the number of columns left |
| Elimination.PivotingReachesEchelon | src/matrix.rs:512-553 | from any partial staircase the pivoting echelon finishes without a zero divisor and in row echelon form |
| Elimination.EchelonExactAsWritten | src/matrix.rs:469-509 | the generic echelon as written, including `prow = i` after a swap, is the recursive `ExactFrom` with that move |
| Elimination.ExactAsWrittenDividesByZero | src/matrix.rs:483 | on `[[0],[1],[1]]` the generic echelon as written divides by zero at row 1, column 0; without the move it finishes |
| Elimination.ExactAsWrittenStopsEarly | src/matrix.rs:477-494 | on `[[0,1,0],[0,0,1],[1,0,0]]` the generic echelon as written swaps row 2 up, moves `prow` to the last row and stops, returning `[[1,0,0],[0,0,1],[0,1,0]]` with one swap, which is not in row echelon form and has a zero diagonal product; without the move it reaches the identity with two swaps |
| Elimination.EchelonExact | src/matrix.rs:469-509 | the corrected generic echelon, which keeps `prow` after a swap, reaches the result of `ExactFrom` without the move |
| Elimination.EchelonExactLoop | src/matrix.rs:476-506 | the loop of the generic echelon, with or without the move, computes `ExactFrom`, zero divisor included |
| Elimination.ExactReachesEchelon | src/matrix.rs:469-509 | the corrected generic echelon never divides by zero and ends in row echelon form |
| Elimination.EchelonOf | src/matrix.rs:468-553 | the `f64` pivoting echelon for `Float` and the corrected generic echelon (without the `prow = i` of line 483) for `Exact`; either way the echelon form keeps the shape, is in row echelon form, and has at most min(rows, cols) swaps |
| Elimination.Echelon | src/matrix.rs:468-553 | the dispatching method returns `EchelonOf`, with the corrected generic echelon for `Exact`: same shape, row echelon form |
| Derived.EchelonIsUpperTriangular | src/matrix.rs:390-400 | a square row echelon form is upper triangular, so `det` multiplies the true diagonal |
| Derived.Det | src/matrix.rs:390-400 | an error with the determinant message exactly when the matrix is not square; otherwise `(-1)^swaps` times the product of the echelon diagonal |
| Derived.MultiplyDiagonal | src/matrix.rs:395-398 | multiplying the starting sign by each diagonal entry in turn gives the sign times the product of the whole diagonal |
| Derived.InvertibleIffNonzeroDeterminant | src/matrix.rs:386-400 | testing only the bottom-right entry of the echelon form is the same as testing the determinant for zero |
| Derived.IsInvertible | src/matrix.rs:386-388 | true exactly when the matrix is square and its determinant is nonzero |
| Derived.DeterminantOfTriangular | src/matrix.rs:390-400 | both echelons leave a square upper triangular matrix with a nonzero diagonal unchanged with no swaps, so `det` is the product of that matrix's own diagonal |
| Derived.TriangularDeterminantsAgree | src/matrix.rs:390-400 | on such a matrix the exact and the `f64` determinant agree |
| Derived.DeterminantOfIdentity | src/matrix.rs:390-400 | `id(n)` is such a matrix, so both echelons leave it unchanged and its determinant is 1 |
| Derived.ExactAsWrittenMisjudgesInvertible | src/matrix.rs:386-400 | on that cyclic permutation matrix the generic echelon as written makes `det` 0 and `is_invertible` false, where the determinant is 1 and the matrix is invertible |
| ReducedForm.Normalize | src/matrix.rs:415-416 | the normalisation step computes `Normalized`, which scales the pivot row so the pivot is 1 and keeps the other rows |
| ReducedForm.ClearAbove | src/matrix.rs:418-421 | the clearing loop computes `ClearedAbove`, which zeroes the pivot column above the pivot row |
| ReducedForm.ReducedEchelon | src/matrix.rs:402-425 | the result is `ReducedOf` and is in reduced row echelon form: row echelon, every pivot 1, every pivot column otherwise zero |
| ReducedForm.ReduceLoop | src/matrix.rs:403-424 | the loop over the rows, with its early return when the pivot column runs out, computes `ReduceFrom` from the first row and column |
| ReducedForm.ReduceRow | src/matrix.rs:409-422 | one row: either the columns run out (the matrix is left as it is and is the final result) or the pivot row is normalised and its column cleared above, and `ReduceFrom` from the next row gives the same result |
| ReducedForm.ReducedOfIsReduced | src/matrix.rs:402-425 | the reduced form of any nonempty rectangular matrix is in reduced row echelon form |
| ReducedForm.InverseOf | src/matrix.rs:427-438 | the right half of the reduced form of `[m \| I]` is square of the same size as m |
| ReducedForm.Inverse | src/matrix.rs:427-438 | an error with the invertibility message exactly when `is_invertible` fails; otherwise that right half, and the result times `m` is the identity |
| ReducedForm.TracksNormalized | src/matrix.rs:415-416 | normalising the pivot row of `[l \| r]` keeps `r * m == l` |
| ReducedForm.TracksCleared | src/matrix.rs:418-421 | clearing the column above a pivot equal to 1 keeps `r * m == l` |
| ReducedForm.ReduceFromTracks | src/matrix.rs:402-425 | the whole reduction keeps `r * m == l` |
| ReducedForm.ReduceFromKeepsLeads | src/matrix.rs:402-425 | the reduction keeps the leading column of every row |
| ReducedForm.DiagonalLeads | src/matrix.rs:386-388 | in a square-left echelon form with a nonzero entry at (n-1, n-1), which is what `is_invertible` tests, row k leads at column k |
| ReducedForm.ReducedLeftIdentity | src/matrix.rs:402-425 | a reduced row echelon form whose row k leads at column k has the identity as its left n columns |
| ReducedForm.ReducedTracksInverse | src/matrix.rs:427-438 | if `[l \| r]` keeps `r * m == l` and its left half is an echelon form with a nonzero bottom-right entry, the right half of its reduced form times `m` is the identity |
| ReducedForm.InverseIsLeftInverse | src/matrix.rs:427-438 | for an invertible matrix and either scalar kind, `InverseOf(m) * m == id(n)` |
| Augmented.TracksStart | src/matrix.rs:427-431 | `[m \| I]` has the form `[l \| r]` with `r * m == l` |
| Augmented.TracksCombination | src/matrix.rs:294-315 | adding to each row a multiple of one fixed row keeps `r * m == l`; scaling a row and `rowadd` are instances |
| Augmented.TracksSwap | src/matrix.rs:285-292 | exchanging two rows keeps `r * m == l` |
| Augmented.TracksEliminated | src/matrix.rs:495-500 | one elimination step keeps `r * m == l` |
| Augmented.PivotingTracks | src/matrix.rs:512-553 | the `f64` echelon loop keeps `r * m == l` to its result |
| Augmented.ExactTracks | src/matrix.rs:469-509 | the generic echelon loop, with or without the `prow = i` move, keeps `r * m == l` to its result |
| Augmented.EchelonTracks | src/matrix.rs:427-432 | for either scalar kind the echelon of `[m \| I]` is `[l \| r]` with `r * m == l` |
| Augmented.LeftOfSwap | src/matrix.rs:285-292 | cutting rows to their first w entries commutes with exchanging two rows |
| Augmented.LeftOfEliminated | src/matrix.rs:495-500 | for a pivot column among the first w, eliminating and then cutting is cutting and then eliminating |
| Augmented.PivotSearchLeft | src/matrix.rs:520-529 | both pivot searches read only column `pcol`, so they choose the same row on the cut matrix |
| Augmented.PivotingTail | src/matrix.rs:512-553 | once past the first w columns of a staircase, the `f64` loop finishes and leaves those columns unchanged |
| Augmented.ExactTail | src/matrix.rs:469-509 | once past the first w columns of a staircase, the corrected generic loop finishes and leaves those columns unchanged |
| Augmented.PivotingLeft | src/matrix.rs:512-553 | the `f64` loop on a wide matrix, cut to its first w columns, gives the `f64` loop on the cut matrix |
| Augmented.ExactLeft | src/matrix.rs:469-509 | the corrected generic loop on a wide matrix, cut to its first w columns, gives the corrected generic loop on the cut matrix |
| Augmented.EchelonLeft | src/matrix.rs:427-432 | the left half of the echelon of `[m \| I]` is the echelon of `m`, for either scalar kind |
| ReducedForm.BinaryPower | src/matrix.rs:447-464 | the square-and-multiply loop returns `base^absPower`, with the invariants `mult == base^pow2` and `res == base^(absPower mod pow2)` |
| ReducedForm.Powi | src/matrix.rs:440-465 | an error exactly for a non-square matrix, or for a negative power of a non-invertible one; otherwise `m^power`, or `inverse(m)^-power` for a negative power |
| Truncation.Truncated | src/common.rs:1-20 | the result is a prefix of the input; when a cut happens it ends with the `0` at the cut |
| Truncation.TruncatedAtFirstTen | src/common.rs:1-20 | the cut is at the first prefix over which the scan's own step, folded, counts ten zeros; with no such prefix the string is returned unchanged |
| Truncation.NoSeparatorUnchanged | src/common.rs:6-10 | a string without `.` is returned unchanged |
| Truncation.TruncatedIdempotent | src/common.rs:1-20 | truncating twice is the same as truncating once, under both rules |
| Truncation.CurrentCutNeedsSeparatorAndDigit | src/common.rs:10 | under the current rule a cut needs a `.` and a digit 1–9 somewhere before it |
| Truncation.CutEndsCountedWindow | src/common.rs:7-16 | a cut ends a stretch with exactly ten `0`s, after a `.`, in which every character keeps the counter (`0`, `.`, and under the current rule 1–9) |
| Truncation.LeadingZerosAfterPoint | examples/linalg/src/matrix.rs:183-201 | for every k ≥ 10, the older rule cuts `0.` followed by k zeros and a `1` (such as `0.0000000000001`) just after the tenth zero; the current rule, which needs a nonzero digit first, leaves it whole |
| Truncation.ScatteredZeros | src/common.rs:8-9 | for runs of a and b zeros, each shorter than ten but ten together, `1.`, a zeros, `1`, b zeros, `1` (such as `1.00000100000001`) is cut by the current rule at the tenth zero, since its digit 1–9 does not reset the counter; the older rule leaves it whole |
| Truncation.TruncateZeroes | src/common.rs:1-20 | the loop with `sep_found`, `nonzero_found` and `zeroes` and its early return computes `Truncated` under the current rule |
| Codec.Split | src/matrix.rs:657-659 | splitting yields at least one part and no part contains the separator |
| Codec.JoinSplit | src/matrix.rs:689-692 | joining the parts of a split with the same separator gives back the string |
| Codec.SplitJoin | src/matrix.rs:657-659 | splitting a join of separator-free parts gives back the parts |
| Codec.ParseRow | src/matrix.rs:660-666 | a row fails exactly when some entry fails to parse; otherwise it holds each entry's parse in order |
| Codec.DecodeMeaning | src/matrix.rs:653-677 | `from_bytes` succeeds exactly when every entry parses and every row is as wide as the first; then the matrix has one row per `;` part, and that row is exactly the parsed entries of the part, as many as it has `,` pieces, all rows equally wide; a failure carries the parse message or the rectangularity message as appropriate |
| Codec.FromBytes | src/matrix.rs:653-677 | the loop with its early returns and the `usize::MAX` width sentinel computes `Decode` |
| Codec.ParseEntries | src/matrix.rs:659-665 | the entries of one line are parsed in order, stopping at the first failure; the result is `ParseRow`, absent exactly when some entry fails to parse |
| Codec.DecodeEncode | src/matrix.rs:679-695 | decoding the encoding of a nonempty rectangular matrix gives it back when each entry's truncated text reads back |
| Codec.EncodeDecode | src/matrix.rs:653-695 | encoding a decoded string gives it back when each entry's text is the truncated text of its value |
| Linalg.Add | examples/linalg/src/matrix.rs:8-19 | no shape check: requires `rhs` to cover `self`; entrywise sum with the shape of `self` |
| Linalg.LeadingProductIsProduct | examples/linalg/src/matrix.rs:47-60 | when widths match, the unchecked product is the matrix product |
| Linalg.Mul | examples/linalg/src/matrix.rs:47-60 | the unchecked product: `nrows(self) × ncols(rhs)` with entry (i,j) = Σ over `k < nrows(rhs)` of `self[i][k]*rhs[k][j]` |
| Linalg.RowSwap | examples/linalg/src/matrix.rs:88-92 | the two rows are exchanged and the others kept |
| Linalg.RowSwapInvolution | examples/linalg/src/matrix.rs:88-92 | swapping the same two rows twice restores the matrix |
| Linalg.RowScale | examples/linalg/src/matrix.rs:94-98 | the row is multiplied by c, the shape and the other rows are kept |
| Linalg.RowScaleInverse | examples/linalg/src/matrix.rs:94-98 | scaling by c and then by 1/c restores the matrix when c is nonzero |
| Linalg.RowAdd | examples/linalg/src/matrix.rs:100-106 | row r1 becomes `r1 + c*r2` (read in place, so for `r1 == r2` the row is scaled by `1 + c`), the shape and the other rows are kept |
| Linalg.RowAddInverse | examples/linalg/src/matrix.rs:100-106 | adding c times row r2 and then -c times row r2 to a different row r1 restores the matrix |
| Linalg.Ref | examples/linalg/src/matrix.rs:108-149 | `REF` computes `PivotingFrom` without the zero-column skip, whose branch at line 129 cannot be taken |
| Linalg.PivotUp | examples/linalg/src/matrix.rs:117-137 | the pivot search and swap bring the first maximal-magnitude row to `prow`, adding one swap exactly when it moved |
| Linalg.RefFinishesInEchelonForm | examples/linalg/src/matrix.rs:108-149 | whenever `REF` never meets a zero divisor its result equals the pivoting echelon and is in row echelon form |
| Linalg.RefZeroColumnDividesByZero | examples/linalg/src/matrix.rs:129-140 | a column that is zero from `prow` down, with rows below `prow`, reaches the division at line 140 with a zero divisor |
| Linalg.RefDividesByZeroOnZeroColumn | examples/linalg/src/matrix.rs:117-140 | on `[[0],[0]]` `REF` divides by zero, while the version with a live skip finishes |
| Linalg.TruncateZeroes | examples/linalg/src/matrix.rs:183-201 | the older loop, with `continue` after `.`, computes `Truncated` under the older rule |
| Linalg.FromBytes | examples/linalg/src/matrix.rs:151-162 | requires every entry to parse (the source panics otherwise); one row per `;` part holding the parsed entries, with no rectangularity check |
| Linalg.FromBytesAgrees | examples/linalg/src/matrix.rs:151-162 | whenever the checked decoder succeeds, the older decoder does not panic and returns the same matrix |
| Linalg.FromBytesToBytes | examples/linalg/src/matrix.rs:151-180 | `from_bytes(to_bytes(m)) == m` for a nonempty rectangular matrix whose truncated entry texts read back |

## Left out

- `exp`, `givens_rotation`, the `rotation_*` constructors, `householder_standard` and `qr_decomposition` use floating-point functions (`cos`, `sin`, `norm`, `factorial`) whose code is not part of this model.
- The `Display` implementation, `src/lib.rs`, `src/convert.rs`, `src/main.rs`, `src/vector.rs` and `examples/linalg/src/lib.rs` are host glue and are not part of this model. A vector is a `seq<real>`.
- `f64` rounding, NaN and infinities are not modelled: `real` is exact.
- The byte buffers and `str::from_utf8` are not modelled. The codec works on `string`, and the truncation assumes one byte per character, as its slicing by character index does.
- `T::from_str` and `to_string` are not modelled. They are the parameters `parse` and `format`. The round trips are stated under the condition that these agree on each entry.
- Ragged matrices are not modelled. Operations that read `ncols()` from row 0 require a rectangular matrix with at least one row. The exception is the older `from_bytes`, which can build a ragged matrix and does.
- Kernel.RowAdd: it requires that the `&&` guard does not let through a call that then panics on an index: `r2` out of range, or `r1` out of range while row `r2` has an entry.
- Kernel.Trace: its contract fixes only the error case. The value of the trace is stated through `TraceOfTranspose` and `TraceOfIdentity` rather than directly.
- Elimination.EchelonOf: for `Exact` it is the corrected generic echelon (`ExactFrom` without the `prow = i` move), not the code as written. Line 483 as written either divides by zero or stops early with a result that is not in echelon form (see Findings). On `[[0,1,0],[0,0,1],[1,0,0]]`, whose determinant is 1, the source's `det` returns 0 and `is_invertible` returns false, so its `inverse` and negative `powi` reject an invertible matrix; the model's answers there are 1 and true. `Derived.Det`, `Derived.IsInvertible`, `ReducedForm.ReducedEchelon`, `ReducedForm.Inverse` and `ReducedForm.Powi` are therefore modelled with the correction for exact scalars. The echelon as written is `Elimination.EchelonExactAsWritten`, which stops with a `ZeroDivisor` outcome where the source goes on with the scalar type's division by zero, which is not part of this model.
- Derived.Det: neither `det(A * B) == det(A) * det(B)` nor agreement of the `Exact` and `Float` determinants on every matrix is proved, because both need the theory of determinants (multilinearity and alternation in the rows) that the model does not develop. Agreement is proved on upper triangular matrices with a nonzero diagonal (`Derived.TriangularDeterminantsAgree`).
- ReducedForm.InverseOf: it is proved to be a left inverse (`InverseOf(m) * m == I`, `ReducedForm.InverseIsLeftInverse`) but not a right inverse (`m * InverseOf(m) == I`). The right-inverse half needs the row operations to be invertible as matrices, or a rank argument, which the model does not develop.
- ReducedForm.Powi: it requires `|power| < 2^62`, which excludes inputs on which the source does not return. For `2^62 <= |power| <= 2^63 - 1` the loop reaches `pow2 == 2^62 <= abs_power`; `pow2 <<= 1` then gives `i64::MIN`, because only the shift amount is checked, and the next shift gives 0. From then on `pow2 > abs_power` never holds and the loop squares `mult` forever. For `power == i64::MIN`, `power.abs()` panics in debug builds and wraps to `i64::MIN` in release builds, where `abs_power` is negative, the loop ends after the first test, and an invertible matrix's power is the identity. The bit test `abs_power & pow2` is written as `(abs_power / pow2) % 2 == 1`.
- Codec.DecodeMeaning: when a string has both an unparsable entry and a ragged row, it says only that the message is one of the two. It does not say which error the scan meets first.
- Linalg.Ref: where the source divides 0 by 0 and carries NaN through the rest of the matrix, the model stops with a `ZeroDivisor` outcome.
- Linalg.PivotUp: it models only the length of `leading_values`, not the row indices it stores, because nothing reads them.

## Findings

| source | as written | input that shows it | evidently intended | confidence | as-written member | corrected member |
|---|---|---|---|---|---|---|
| src/matrix.rs:483 | after swapping a nonzero row up into `prow`, the generic echelon sets `prow = i`. The next division is then by the zero entry that was just swapped down | `[[0],[1],[1]]`: the swap brings row 1 up, `prow` becomes 1, and `out[1][0]` is 0 | keep `prow` after the swap and eliminate below it | high (proved; not executed) | Elimination.ExactAsWrittenDividesByZero | Elimination.ExactReachesEchelon |
| src/matrix.rs:483 | the same `prow = i`, when the pivot is found in the last row, makes the `break` at line 492 end the loop at once. The result is not in echelon form, so `det` and `is_invertible` read a wrong diagonal | `[[0,1,0],[0,0,1],[1,0,0]]` (determinant 1): the result is `[[1,0,0],[0,0,1],[0,1,0]]` with one swap, `det` is 0 and `is_invertible` is false | keep `prow` after the swap and eliminate below it | high (proved; not executed) | Elimination.ExactAsWrittenStopsEarly | Elimination.ExactReachesEchelon |
| examples/linalg/src/matrix.rs:117-129 | `leading_values` is created with length `rows - prow`, so the zero-column test `leading_values.len() == 0` never holds. An all-zero column then reaches `0.0 / 0.0` | `[[0],[0]]`: column 0 is zero and a row remains below the pivot | skip a column with no nonzero entry at or below `prow`, as the later `f64` echelon does | high (proved; not executed) | Linalg.RefDividesByZeroOnZeroColumn | Elimination.PivotingReachesEchelon |
| src/matrix.rs:304 | `rowadd` rejects the indices only when both are out of range. With `r2` out of range, or with `r1` out of range and a nonempty row `r2`, the call panics on the index instead of returning the error | `[[1]]` with `r1 = 0`, `r2 = 1` | reject when either index is out of range (`\|\|`) | high (proved; not executed) | Kernel.RowAddGuard | Kernel.RowAddChecked |
