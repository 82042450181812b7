# jolin, modelled in Dafny

jolin is a small dense linear-algebra library. Its matrices (`Mat64` over
`f64`, `Mat32` over `f32`) keep their entries in one column-major buffer,
and element (r, c) sits at index `r + c * row`. The library provides:

- element access;
- horizontal and vertical concatenation;
- sum, negation, difference, product and transpose;
- element-wise maps;
- comparison within a tolerance;
- LU decomposition with partial pivoting;
- a determinant built on 2 x 2 closed forms and LU;
- two QR decompositions: Gram-Schmidt and Householder reflections.

This project models that core. Entries are exact `real`s. The two matrix
structs are classes with a `row`, a `column` and a `data` buffer that the
algorithms update in place. Each class's `Value()` is an immutable `Matrix`
datatype (`matrices.dfy`), and every operation is specified against it:

- `Sum`, `Product`, `Transpose`, `PermuteRows`, … define the matrix algebra;
- `MatrixLaws` proves the usual laws about them;
- `Permutations` counts inversions and proves that a swap flips their parity;
- `NullSpace` defines singularity as the existence of a non-zero null vector.

Properties proved:

- `Lu` reports `SingularMatrix` exactly when the square input is singular;
- otherwise `Lu` returns `l`, `u` and `p` with `P·A = L·U`, where `L` is unit
  lower triangular and `U` is upper triangular with a non-zero diagonal;
- `Det` is zero exactly when the matrix is singular;
- `Det` uses the 2 x 2 closed form, and for other sizes it is the signed
  diagonal product of an LU factorization;
- the swap count of `permutation_order` has the parity of the permutation's
  inversions;
- Householder QR returns `R = Qᵀ·A`, with `Qᵀ` the product of its
  reflectors.

Modules:

- `Errors`: `JolinError` and `Result`.
- `Sums`: finite sums `Sigma`.
- `Numbers`: `abs`.
- `Matrices` and `MatrixLaws`: the value model and its laws.
- `Mat64Type` and `Mat32Type`: the two structs.
- `Concatenation` and `MatrixOps`: `hcat`, `vcat`, `add`, `neg`, `sub`, `mul`, `tr`, `elemwise` and `eq_with_error`.
- `Permutations`, `NullSpace`, `LuDecomp`, `Determinant` and `QrDecomp`: the algorithms.

## Model

| member | source | states |
|---|---|---|
| Matrices.Idx | jolin/src/matrix/mod.rs:64-66 | the column-major position r + c * rows; IdxInRange, IdxInjective and IdxOf prove it a bijection between the grid and the buffer indices |
| Matrices.Get | jolin/src/matrix/mod.rs:75-77 | the buffer read at Idx(rows, r, c), defined exactly for positions inside the grid; Column, Update and Ext state what it reads |
| Matrices.Update | jolin/src/matrix/mod.rs:79-83 | writing through elem_mut changes element (r, c) to v and no other element, and keeps the shape |
| Matrices.IdxInjective | jolin/src/matrix/mod.rs:64-66 | two positions with rows below the row count share a buffer index only if they are the same position |
| Matrices.IdxOf | jolin/src/matrix/mod.rs:64-66 | every buffer index below rows * cols is the index of the position (k % rows, k / rows) |
| Matrices.UpdateAt | jolin/src/matrix/mod.rs:79-83 | after writing v at the buffer index of (r, c), element (r, c) is v and every other element is unchanged |
| Matrices.Column | jolin/src/matrix/mat64.rs:69-71 | a column slice has `rows` entries, and entry j is element (j, c) |
| Matrices.ColumnPrefix | jolin/src/matrix/mat64.rs:69-71 | the first c + 1 columns of the buffer are the first c columns followed by column c |
| Matrices.ZeroMatrix | jolin/src/matrix/mat64.rs:94-98 | a rows x cols matrix all of whose entries are zero |
| Matrices.Identity | jolin/src/matrix/mat64.rs:100-107 | an n x n matrix with ones on the diagonal and zeros elsewhere |
| Matrices.Sum | jolin/src/matrix/mod.rs:189-205 | same shape, and each element is the sum of the two operands' elements |
| Matrices.Difference | jolin/src/matrix/mod.rs:229-244 | same shape, and each element is left minus right |
| Matrices.MapElements | jolin/src/matrix/mod.rs:302-305 | same shape, and every buffer entry (so every element) is f of the original |
| Matrices.Negation | jolin/src/matrix/mod.rs:214-217 | same shape, and every element negated |
| Matrices.Transpose | jolin/src/matrix/mod.rs:283-291 | shape swapped, and element (r, c) is element (c, r) of the input |
| Matrices.Product | jolin/src/matrix/mod.rs:257-273 | rows of left x columns of right, and element (r, c) is the sum over k of left(r, k) * right(k, c) |
| Matrices.PermuteRows | jolin/src/decomp/lu.rs:152-158 | row r of the result is row p[r] of the input; this is the reference definition of P·A in `Lu`'s contract, matching the test that compares mat(p[r], c) with (L·U)(r, c) |
| Matrices.Ext | jolin/src/matrix/mat64.rs:35-48 | two valid matrices of one shape that agree on every element are equal |
| MatrixLaws.TransposeInvolution | jolin/src/matrix/mod.rs:283-291 | transposing twice gives the original matrix |
| MatrixLaws.NegationInvolution | jolin/src/matrix/mod.rs:214-217 | negating twice gives the original matrix |
| MatrixLaws.DifferenceIsSumOfNegation | jolin/src/matrix/mod.rs:229-244 | a - b equals a + (-b) |
| MatrixLaws.SumCommutes | jolin/src/matrix/mod.rs:189-205 | a + b equals b + a |
| MatrixLaws.IdentityLeft | jolin/src/matrix/mod.rs:257-273 | I * a equals a |
| MatrixLaws.IdentityRight | jolin/src/matrix/mod.rs:257-273 | a * I equals a |
| MatrixLaws.RowColAssociative | jolin/src/matrix/mod.rs:257-273 | entry (r, l) of (a * b) * c equals entry (r, l) of a * (b * c) |
| MatrixLaws.ProductAssociative | jolin/src/matrix/mod.rs:257-273 | (a * b) * c equals a * (b * c), which the Householder accumulation relies on |
| MatrixLaws.WithinErrorReflexive | jolin/src/matrix/mod.rs:308-320 | a matrix is within any non-negative error of itself |
| MatrixLaws.WithinErrorSymmetric | jolin/src/matrix/mod.rs:308-320 | being within an error is symmetric in the two matrices |
| MatrixLaws.WithinZeroErrorIsEquality | jolin/src/matrix/mod.rs:308-320 | within error zero holds exactly when the two matrices are equal |
| Numbers.Abs | jolin/src/matrix/mat64.rs:15-21 | the result is non-negative, is x or -x, and bounds both x and -x |
| Mat64Type.Mat64.New | jolin/src/matrix/mat64.rs:73-84 | a matrix of the given shape holding a copy of the buffer, whose length must be row * column |
| Mat64Type.Mat64.FromVec | jolin/src/matrix/mat64.rs:86-92 | a matrix of the given shape owning the buffer, whose length must be row * column |
| Mat64Type.Mat64.Zero | jolin/src/matrix/mat64.rs:94-98 | a row x column zero matrix |
| Mat64Type.Mat64.Identity | jolin/src/matrix/mat64.rs:100-107 | an n x n identity matrix |
| Mat64Type.Mat64.Elem | jolin/src/matrix/mod.rs:75-77 | the element at (r, c) of the matrix's value |
| Mat64Type.Mat64.SetElem | jolin/src/matrix/mod.rs:80-83 | the new value is the old one with element (r, c) set to v, and nothing else changes |
| Mat64Type.Mat64.DataColumn | jolin/src/matrix/mat64.rs:69-71 | a slice of `row` entries whose entry j is element (j, c) |
| Mat64Type.Mat64.Eq | jolin/src/matrix/mat64.rs:35-48 | true exactly when the shapes agree and so do all the entries |
| Mat32Type.Mat32.New | jolin/src/matrix/mat32.rs:57-68 | as for Mat64: the given shape holding a copy of the buffer |
| Mat32Type.Mat32.FromVec | jolin/src/matrix/mat32.rs:70-76 | as for Mat64: the given shape owning the buffer |
| Mat32Type.Mat32.Zero | jolin/src/matrix/mat32.rs:78-82 | a row x column zero matrix |
| Mat32Type.Mat32.Identity | jolin/src/matrix/mat32.rs:84-91 | an n x n identity matrix |
| Mat32Type.Mat32.Elem | jolin/src/matrix/mod.rs:75-77 | the element at (r, c) of the matrix's value |
| Mat32Type.Mat32.SetElem | jolin/src/matrix/mod.rs:80-83 | only element (r, c) changes, and it becomes v |
| Mat32Type.Mat32.DataColumn | jolin/src/matrix/mat32.rs:53-55 | a slice of `row` entries whose entry j is element (j, c) |
| Mat32Type.Mat32.Eq | jolin/src/matrix/mat32.rs:19-32 | true exactly when the shapes agree and so do all the entries |
| Concatenation.Beside | jolin/src/matrix/mod.rs:130-137 | two matrices of equal height side by side: buffers appended, and each operand is a block in place |
| Concatenation.HConcatStep | jolin/src/matrix/mod.rs:134-136 | putting the next operand beside the matrix built so far keeps each operand as a block in place |
| Concatenation.Above | jolin/src/matrix/mod.rs:170-174 | two matrices of equal width, one on top of the other: the first is the block at row 0, the second the block at its row count |
| Concatenation.VConcatStep | jolin/src/matrix/mod.rs:170-174 | putting the next operand below the matrix built so far keeps each operand as a block in place |
| Concatenation.StackedColumnStep | jolin/src/matrix/mod.rs:171-173 | stacking one more operand appends its column c |
| Concatenation.ColumnOfAbove | jolin/src/matrix/mod.rs:170-174 | column c of one matrix on top of another is the first's column c followed by the second's |
| Concatenation.HConcat | jolin/src/matrix/mod.rs:118-137 | rows of the first operand and the total column count; the buffers appended in order; operand k is the block starting at the column total of the operands before it |
| Concatenation.VConcat | jolin/src/matrix/mod.rs:153-175 | the total row count and the common column count; operand k is the block starting at the row total of the operands before it |
| Concatenation.ColumnOfVConcat | jolin/src/matrix/mod.rs:170-174 | column c of the vertical concatenation is the operands' columns c placed one after another |
| MatrixOps.RowsAgree | jolin/src/matrix/mod.rs:122-127 | true exactly when every operand has the first operand's row count |
| MatrixOps.ColumnTotal | jolin/src/matrix/mod.rs:130 | the sum of the operands' column counts |
| MatrixOps.JoinedBuffers | jolin/src/matrix/mod.rs:132-136 | the operands' buffers appended in order |
| MatrixOps.ColumnsAgree | jolin/src/matrix/mod.rs:157-162 | true exactly when every operand has the first operand's column count |
| MatrixOps.RowTotal | jolin/src/matrix/mod.rs:167 | the sum of the operands' row counts |
| MatrixOps.StackedColumnOf | jolin/src/matrix/mod.rs:171-173 | column c of every operand, in operand order |
| MatrixOps.Hcat | jolin/src/matrix/mod.rs:118-137 | NotEnoughInput for no operands; ShapeMismatching when the row counts differ; otherwise a fresh matrix equal to HConcat |
| MatrixOps.Vcat | jolin/src/matrix/mod.rs:153-175 | NotEnoughInput for no operands; ShapeMismatching when the column counts differ; otherwise a fresh matrix equal to VConcat |
| MatrixOps.StackColumns | jolin/src/matrix/mod.rs:164-174 | the buffer built column by column, operand by operand, is VConcat's buffer |
| MatrixOps.Add | jolin/src/matrix/mod.rs:189-205 | ShapeMismatching unless the shapes agree; otherwise a fresh matrix equal to Sum |
| MatrixOps.Neg | jolin/src/matrix/mod.rs:214-217 | a fresh matrix equal to Negation |
| MatrixOps.Sub | jolin/src/matrix/mod.rs:229-244 | ShapeMismatching unless the shapes agree; otherwise a fresh matrix equal to Difference |
| MatrixOps.AccumulateRowCol | jolin/src/matrix/mod.rs:265-268 | the start value plus the sum over k of left(r, k) * right(k, c) |
| MatrixOps.Mul | jolin/src/matrix/mod.rs:257-273 | ShapeMismatching unless left.column == right.row; otherwise a fresh matrix equal to Product |
| MatrixOps.Tr | jolin/src/matrix/mod.rs:283-291 | a fresh matrix equal to Transpose |
| MatrixOps.Elemwise | jolin/src/matrix/mod.rs:302-305 | a fresh matrix equal to MapElements with f |
| MatrixOps.EqWithError | jolin/src/matrix/mod.rs:308-320 | true exactly when the shapes agree and every buffer entry differs by at most eps |
| Permutations.Swap | jolin/src/decomp/lu.rs:44-50 | entries i and j exchanged, and every other entry kept |
| Permutations.SwapKeepsInverses | jolin/src/decomp/lu.rs:44-50 | swapping p at i and j, and its inverse at p[i] and p[j], keeps the two inverse to each other |
| Permutations.InversesArePermutations | jolin/src/decomp/lu.rs:31-32 | two sequences that undo each other are both permutations |
| Permutations.SwapFlipsParity | jolin/src/det.rs:85-89 | exchanging two entries of a permutation changes the parity of its inversion count |
| Permutations.IotaNoInversions | jolin/src/det.rs:84-85 | the identity permutation has no inversions |
| Permutations.DisplacedMono | jolin/src/det.rs:85-88 | fixing one more position, and displacing none, leaves fewer displaced positions |
| NullSpace.ProductDot | jolin/src/decomp/lu.rs:22-89 | applying L·U to x is applying L to the vector U·x; a proof fact behind `Lu` returning a factorization only for a non-singular input |
| NullSpace.UnitLowerOnlyZero | jolin/src/decomp/lu.rs:22-89 | a unit lower triangular matrix has no non-zero null vector; a proof fact behind `Lu` returning a factorization only for a non-singular input |
| NullSpace.UpperOnlyZero | jolin/src/decomp/lu.rs:22-89 | an upper triangular matrix with non-zero diagonal has no non-zero null vector; a proof fact behind `Lu` returning a factorization only for a non-singular input |
| NullSpace.FactorizedNotSingular | jolin/src/decomp/lu.rs:22-89 | a square matrix whose row permutation is L·U, with L unit lower triangular and U upper triangular without zero pivots, is not singular; with StalledIsSingular it gives `Lu`'s "SingularMatrix exactly when singular" |
| NullSpace.FactorizedRow | jolin/src/decomp/lu.rs:22-89 | if P·A = L·U and row p[q] of A sends x to zero, then row q of L sends U·x to zero; a proof fact behind FactorizedNotSingular |
| NullSpace.StageStep | jolin/src/decomp/lu.rs:39-42 | one back-substitution step solves row k and keeps rows k + 1 .. i - 1 solved, with entry i still 1; a proof fact behind the SingularMatrix return (the source does no back substitution) |
| NullSpace.StageIsNull | jolin/src/decomp/lu.rs:39-42 | when rows i and beyond of the upper factor are all zero, back substitution gives a non-zero null vector of it; a proof fact behind the SingularMatrix return at lu.rs:40-41 |
| LuDecomp.ArgMaxAbs | jolin/src/decomp/lu.rs:92-103 | 0 for an empty slice; otherwise an index in range whose absolute value is maximal and strictly greater than that of every earlier entry, so the first maximum |
| LuDecomp.SwapStep | jolin/src/decomp/lu.rs:43-61 | swapping the pivot's entries of p and inv_p, and the first i columns of the two rows of L, keeps the elimination invariant and puts the pivot row at step i |
| LuDecomp.MoveStep | jolin/src/decomp/lu.rs:63-71 | moving the pivot row from A into row i of U, and zeroing it in A, keeps P·A = L·U + (remainder of A) |
| LuDecomp.ElimStep | jolin/src/decomp/lu.rs:72-84 | subtracting ratio times U row i from a row r0 of A whose column-i entry was non-zero and becomes zero, and recording ratio in L at (inv_p[r0], i), keeps the invariant with r0 done |
| LuDecomp.ElimReconstructs | jolin/src/decomp/lu.rs:75-82 | that subtraction from row p[q0] of A, with ratio written where L held zero, keeps P·A = L·U + (remainder of A) over the first i + 1 columns |
| LuDecomp.ElimKeepsZeros | jolin/src/decomp/lu.rs:76-80 | rows already moved to U stay zero in A, the columns left of i stay zero, and rows up to r0 are now zero in column i |
| LuDecomp.ElimKeepsLower | jolin/src/decomp/lu.rs:81-82 | writing the ratio at (inv_p[r0], i), below the diagonal, keeps L unit lower triangular in its first i + 1 columns, and the rows still to come keep their identity entry in column i |
| LuDecomp.PivotCancels | jolin/src/decomp/lu.rs:75-79 | with ratio = x / y for a non-zero pivot y, x - ratio * y is zero, so the eliminated entry becomes zero |
| LuDecomp.EliminateWithPivot | jolin/src/decomp/lu.rs:74-83 | for a row r whose column-i entry is non-zero: the row is eliminated with U row i and the ratio recorded in L, and the elimination invariant moves on from row r to row r + 1 |
| LuDecomp.StalledRow | jolin/src/decomp/lu.rs:39-42 | when U and the remainder's row p[q] both send x to zero, row p[q] of the input does too |
| LuDecomp.StalledRowSplit | jolin/src/decomp/lu.rs:39-42 | row p[q] of the input applied to x is the first i columns of L times U, applied to x, plus row p[q] of the remainder applied to x |
| LuDecomp.TermsExtend | jolin/src/decomp/lu.rs:64-70 | once row i of U is filled, the first i + 1 terms of a row of L times a column of U are the first i terms plus L(q, i) * U(i, c) |
| LuDecomp.ElimRowTerms | jolin/src/decomp/lu.rs:81-82 | writing ratio into a zero entry (q, i) of L adds ratio * U(i, c) to the first i + 1 terms of row q against column c |
| LuDecomp.SameRowPrefix | jolin/src/decomp/lu.rs:53-60 | rows of L that agree in their first t columns give equal first t terms against U |
| LuDecomp.PivotAndEliminate | jolin/src/decomp/lu.rs:37-84 | one pass of the column loop: either the pivot column is zero and the input is singular, or the invariant holds for i + 1 columns with the new p and inv_p |
| LuDecomp.SkipStep | jolin/src/decomp/lu.rs:74 | a row whose column-i entry is already zero is left untouched and the invariant holds |
| LuDecomp.Start | jolin/src/decomp/lu.rs:29-34 | A copied, p and inv_p the identity, L = I and U = 0 satisfy the invariant before the first column |
| LuDecomp.Finish | jolin/src/decomp/lu.rs:86-88 | after n columns the invariant gives an LU factorization: p a permutation, P·A = L·U, L unit lower and U upper triangular with a non-zero diagonal |
| LuDecomp.StalledIsSingular | jolin/src/decomp/lu.rs:39-42 | if column i of the working matrix is zero when step i starts, the input matrix is singular |
| LuDecomp.SwapRowPrefix | jolin/src/decomp/lu.rs:53-60 | rows x and y of L exchanged in columns below w, and every other entry kept |
| LuDecomp.MoveRow | jolin/src/decomp/lu.rs:64-71 | row i of U becomes row piv of A, and row piv of A becomes zero |
| LuDecomp.EliminateRow | jolin/src/decomp/lu.rs:76-80 | entries i.. of row r of A lose ratio times the matching entries of U row i |
| LuDecomp.EliminateColumn | jolin/src/decomp/lu.rs:72-84 | after the sweep over all rows, the invariant holds for i + 1 columns |
| LuDecomp.SwapPivot | jolin/src/decomp/lu.rs:43-61 | the new p has the pivot row at position i and keeps the invariant |
| LuDecomp.MoveAndEliminate | jolin/src/decomp/lu.rs:63-84 | one full column step keeps the invariant for i + 1 columns |
| LuDecomp.Lu | jolin/src/decomp/lu.rs:22-89 | ShapeMismatching exactly for a non-square input; SingularMatrix exactly when the square input is singular; otherwise fresh l, u and p forming an LU factorization of the input |
| Determinant.DiagonalZero | jolin/src/det.rs:71-77 | the diagonal product is zero exactly when some diagonal entry is zero |
| Determinant.DiagonalOnes | jolin/src/det.rs:71-77 | a diagonal of ones has product one, as for L |
| Determinant.DiagonalProduct | jolin/src/det.rs:71-77 | the product of the first `row` diagonal entries |
| Determinant.SwapKeepsPermutation | jolin/src/det.rs:86-88 | exchanging two entries of a permutation gives a permutation |
| Determinant.SortingStep | jolin/src/det.rs:85-89 | one pass of the while loop keeps the loop invariant, with the count one higher, and displaces fewer positions |
| Determinant.SortingNext | jolin/src/det.rs:84-85 | once a[i] == i, the invariant holds for position i + 1 |
| Determinant.SortingDone | jolin/src/det.rs:91-92 | when every position is fixed, the count has the parity of p's inversions and is at most the number of positions p moves |
| Determinant.PlaceStep | jolin/src/det.rs:85-89 | one inner-loop step moves a[i] into place, keeps a a permutation and the lower positions fixed, flips the parity and reduces the displaced positions |
| Determinant.PermutationOrder | jolin/src/det.rs:81-93 | the swap count has the parity of p's inversions, and is at most the number of positions p moves |
| Determinant.PlaneCramer | jolin/src/det.rs:19-22 | two homogeneous equations in two unknowns with a non-zero solution have zero determinant a * d - b * c |
| Determinant.PlaneSolution | jolin/src/det.rs:19-22 | two homogeneous equations in two unknowns with zero determinant have a non-zero solution |
| Determinant.RowEquation | jolin/src/det.rs:19-22 | a row of a two-column matrix that sends x to zero gives m(r, 0) * x[0] + m(r, 1) * x[1] == 0 |
| Determinant.NullRows | jolin/src/det.rs:19-22 | a null vector of a two-column matrix has a non-zero entry and solves the first two row equations |
| Determinant.TwoByTwoDeterminantZero | jolin/src/det.rs:19-22 | a singular 2 x 2 matrix has a00 * a11 - a01 * a10 == 0 |
| Determinant.TwoByTwoSingular | jolin/src/det.rs:19-22 | a 2 x 2 matrix with a00 * a11 - a01 * a10 == 0 is singular |
| Determinant.TwoByTwo | jolin/src/det.rs:19-22 | a00 * a11 - a01 * a10 is zero exactly when the 2 x 2 matrix is singular |
| Determinant.Sign | jolin/src/det.rs:28-32 | 1 for an even and -1 for an odd number of inversions, the sign `det` applies to the diagonal product; PermutationOrder ties it to the parity of the swap count, and SwapFlipsParity shows that each swap flips it |
| Determinant.FactorizationValue | jolin/src/det.rs:26-32 | for an LU factorization, L's diagonal product is 1 and the signed diagonal product is non-zero |
| Determinant.Det | jolin/src/det.rs:15-37 | ShapeMismatching exactly for a non-square input; Ok otherwise; the 2 x 2 closed form; otherwise, when non-zero, Sign(p) * diag(L) * diag(U) of some LU factorization; zero exactly when the matrix is singular |
| QrDecomp.VectorDotProduct | jolin/src/decomp/qr.rs:120-125 | the sum of a[k] * b[k] over the common length, whose requires is the length check that panics; DotSymmetric and ColumnDotIsProduct state its properties |
| QrDecomp.L2NormOfVector | jolin/src/decomp/qr.rs:116-118 | the square root parameter applied to the dot product of v with itself; SumOfSquares states that this argument is non-negative and zero only for the zero vector |
| QrDecomp.Quotient | jolin/src/decomp/qr.rs:88-90 | the division by a norm used at qr.rs:51 and qr.rs:90, which is x / y for a non-zero norm and 0 for a zero one; Normalized and NormalizedIsUnit state what it gives |
| QrDecomp.DotSymmetric | jolin/src/decomp/qr.rs:120-125 | the dot product is symmetric |
| QrDecomp.ColumnDotIsProduct | jolin/src/decomp/qr.rs:54-59 | column i of q dotted with column c of a is element (i, c) of qᵀ·a |
| QrDecomp.SumOfSquares | jolin/src/decomp/qr.rs:116-118 | the sum of squares under the norm's square root is non-negative, and zero exactly for the zero vector |
| QrDecomp.Normalized | jolin/src/decomp/qr.rs:48-52 | each entry is divided by the norm |
| QrDecomp.NormalizedIsUnit | jolin/src/decomp/qr.rs:48-52 | dividing a non-zero vector by a square root of its sum of squares gives a unit vector |
| QrDecomp.ProjectOut | jolin/src/decomp/qr.rs:37-46 | the new value of a is Projected of the old one: column i loses the ratio times column ii of q, the ratio being the dot of the two columns, and all other columns are kept |
| QrDecomp.SubtractMultiple | jolin/src/decomp/qr.rs:42-45 | after the loop over j, element (j, i) of a is its old value minus ratio times q(j, ii), and every other element is unchanged |
| QrDecomp.ProjectionEquation | jolin/src/decomp/qr.rs:38-45 | a matrix that differs from a only in column i, where it holds a(j, i) - ratio * q(j, ii) with ratio the dot of the two columns, is Projected(a, q, i, ii) |
| QrDecomp.NormalizeInto | jolin/src/decomp/qr.rs:48-52 | column i of q becomes u divided by the norm, and every other column is kept |
| QrDecomp.ColumnTerm | jolin/src/decomp/qr.rs:57 | term k of column i of q dotted with column c of a is term k of row i of qᵀ times column c of a |
| QrDecomp.UpperFromColumns | jolin/src/decomp/qr.rs:54-59 | R(i, c) is column i of q dotted with column c of the input for i <= c, and zero below the diagonal |
| QrDecomp.UpperDotsIsProduct | jolin/src/decomp/qr.rs:54-59 | on and above the diagonal, that R equals Qᵀ·A |
| QrDecomp.QrGramSchmidt | jolin/src/decomp/qr.rs:27-64 | ShapeMismatching exactly when row < column; otherwise an m x m Q whose columns n.. are zero and an m x n R of the column dot products |
| QrDecomp.ReflectorMatrix | jolin/src/decomp/qr.rs:93-101 | the m x m identity with I - 2 u uᵀ placed on rows and columns i.. |
| QrDecomp.ReflectorRow | jolin/src/decomp/qr.rs:96-100 | the inner loop over k fills row i + j of the block, so rows i .. i + j of the Householder matrix are in place |
| QrDecomp.ReflectorSymmetric | jolin/src/decomp/qr.rs:93-101 | each Householder matrix is its own transpose |
| QrDecomp.Reflector | jolin/src/decomp/qr.rs:93-101 | a fresh matrix equal to ReflectorMatrix |
| QrDecomp.HouseholderVector | jolin/src/decomp/qr.rs:84-91 | the tail x of column i with x[0] moved by norm(x) * sign(x[0]), then divided by its own norm |
| QrDecomp.AccumulateExtend | jolin/src/decomp/qr.rs:104 | appending a reflector multiplies it onto the accumulated product from the left |
| QrDecomp.ReflectorsExtend | jolin/src/decomp/qr.rs:93-104 | appending the Householder matrix of step k to the first k keeps every step's matrix a Householder matrix of its step |
| QrDecomp.StepKeepsProduct | jolin/src/decomp/qr.rs:104-105 | multiplying both Q and A by the same reflector keeps A = Q · input |
| QrDecomp.AccumulateStep | jolin/src/decomp/qr.rs:104-105 | after one more step, A = Q · input and Q is the product of the reflectors so far |
| QrDecomp.HouseholderStep | jolin/src/decomp/qr.rs:84-105 | one iteration: fresh A and Q, of the same shapes, that keep the accumulation invariant with one more reflector |
| QrDecomp.QrHousehoulder | jolin/src/decomp/qr.rs:69-114 | ShapeMismatching exactly when row < column; otherwise fresh Q (m x m) and R (m x n) with R = Qᵀ·A and Qᵀ the product of min(m - 1, n) Householder matrices |

## Left out

- Floating point: entries are exact reals, so rounding, NaN and infinities are not modelled. Where the source divides by a zero norm, giving NaN or infinity, `Quotient` gives 0.
- Mat32 and Mat64 share the same real-valued model. The generic algorithms (`hcat` … `det`, `lu`, `qr_*`) are modelled over `Mat64` only, since the `Matrix` trait has no Dafny counterpart here.
- Elemwise: takes a pure `real -> real`. The source takes an `FnMut` closure that sees the entries in buffer order and may keep state across calls; a closure whose results depend on that state, or on the order of the calls, is not modelled (the same holds for Matrices.MapElements).
- Mat64Type.Mat64.New, Mat64Type.Mat64.FromVec, Mat32Type.Mat32.New, Mat32Type.Mat32.FromVec: the length check `row * column` is `usize` arithmetic in the source (mat64.rs:74, 87; mat32.rs:58, 71). When that product wraps, the source accepts a buffer shorter than the shape. The model's `|data| == row * column` over unbounded `nat` does not capture that wrap-around, and neither do the shape products elsewhere (`idx`, `hcat`'s total column count, `vcat`'s total row count).
- Numbers.Abs: models the `f64` `abs`; mat32.rs contains no `f32` `LikeNumber` implementation, so no second `abs` is modelled.
- `sqrt` and `sign`: these `LikeNumber` operations are parameters of `QrGramSchmidt`, `QrHousehoulder` and `HouseholderVector`, so no property of them is assumed. `sin`, `cos`, `ln` and `times_real` are not used by the core.
- QrGramSchmidt: Q's orthonormality and Q·R = A hold only with an exact square root and a full-rank input, and are not proved. The contract states the shapes, the zero columns n.., and R's entries as column dot products, equal to Qᵀ·A on and above the diagonal.
- QrGramSchmidt: the code is the modified variant. Each projection ratio uses column i as already updated (qr.rs:38-41), and the model follows that.
- QrHousehoulder: Q's orthogonality and R's upper-triangular shape depend on `sqrt` and `sign`, and are not proved. The contract states R = Qᵀ·A, with Qᵀ a product of Householder matrices.
- QrHousehoulder: requires m >= 1 when m >= n, because at m = 0 the source's `m - 1` underflows `usize`.
- PermutationOrder: states the parity of the count, and an upper bound on it, not its exact value (the length minus the number of cycles). Only the parity is used by `det`.
- Det: requires a non-empty matrix, because `diagonal_product` reads element (0, 0) and panics on a 0 x 0 input.
- Det: the LU branch states the result as the signed diagonal product of some LU factorization. It does not state that every factorization gives the same value.
- Concrete results of the unit tests: the exact L, U and p for the 2 x 2, 3 x 3 and 4 x 4 examples, and the numeric determinants. Only the properties above are proved.
- The type-specific `DeterminantComputable` for `Mat64` (det.rs:39-69) repeats `det`, and is not modelled separately.
- The random-matrix module (rand), the `mat64!` macro, `Debug`/`Clone` derivations, `lib.rs` re-exports and `error.rs` messages are not part of this model. `JolinError` keeps only its three kinds.
- Hcat: the doc comment speaks of column counts, but the code compares row counts (mod.rs:123-127). The model follows the code.
- Methods that allocate their result (`Hcat`, `Mul`, `Lu`, the QR methods, …) state `fresh`. `SetElem` and the in-place LU and QR steps state their new value through `old`.
