# matrix_core in Dafny

A model of `matrix_core`, the exact-arithmetic linear-algebra engine of a
calculator matrix application, together with the shell's
`keep_cursor_in_view` scroll clamp, and proofs about it.

The engine computes with rationals held as int64 numerator/denominator
pairs in lowest terms. Every operation either yields the exact answer or
reports an error code (`Overflow`, `DivisionByZero`, `Singular`,
`NotSquare`, ...). Matrices live in a bump arena and are at most 6 x 7.
Each operation can optionally leave an *explanation*: a small context in a
persist arena from which any step of the computation is rendered on
demand, as a caption and a LaTeX string in fixed-capacity buffers, by
replaying the elimination until exactly that many row operations have been
applied.

The model is functional. Rationals, matrices, arenas, writers and
explanation contexts are immutable datatypes, and every C++ function is a
Dafny function or method that returns what the C++ code leaves behind (the
error, the written output, the arena after allocation). int64 values are
`int` with explicit range predicates, and the hand-written overflow checks
are proved to fail exactly when the mathematical result leaves the int64
range. Exactness is stated through a ghost `Val()` into the reals, so
"exact" means the result's real value is the mathematical one.

Modules follow the source:

| module | file | what it models |
|---|---|---|
| `Errors` | errors.dfy | error codes, `Error` records with their dimensions, `Result` / `Option` |
| `Int64`, `NumberTheory`, `Rationals` | int64.dfy, gcd.dfy, rational.dfy | rational.cpp: checked int64 arithmetic, gcd, `Rational::make`, neg / add / sub / mul / div |
| `Writers` | writer.dfy | writer.hpp: the NUL-terminated fixed-capacity writer and its number formatting |
| `Arenas` | arena.dfy | arena.hpp: the bump allocator, `ArenaScope`, `ArenaScratchScope` |
| `Matrices` | matrix.dfy | matrix_view.cpp: allocation, copy, clone, fill and the entrywise and product kernels |
| `RowOps`, `Kernels` | rowops.dfy, kernel.dfy | row_reduction.hpp: the three row operations, the counting observer and the replay of a recorded run |
| `Echelon` | echelon.dfy | row_reduction.cpp: REF / RREF with early stop |
| `EchelonForm` | echelonform.dfy | row_reduction.cpp: the loop invariant of echelon_apply and the echelon shape of its result |
| `Det` | det.dfy | det_detail.cpp: the triangularising determinant with sign tracking |
| `Captions`, `Latex` | captions.dfy, latex.dfy | row_ops.cpp and latex_view.cpp: row-op captions and the LaTeX matrix writers |
| `Explaining`, `Explanations` | explaining.dfy, explanation.dfy | explanation.cpp: step buffers, the persisted context, the explanation handle |
| `DetOps`, `EchelonOps`, `Inverse`, `Minors` | detops.dfy, echelonops.dfy, inverse.dfy, minors.dfy | the determinant, replaced-column determinant, Cramer, echelon, inverse, minor-matrix and cofactor operations with their step counts and renderers |
| `Spaces` | spaces.dfy | spaces.cpp: pivot information and the column, row and null-space bases |
| `Vectors`, `CrossProduct`, `Projection` | vectors.dfy, cross.dfy, projection.dfy | ops_vector_ondemand.cpp: dot, cross and projection |
| `BasicOps` | basic.dfy | ops_basic_view.cpp: add, sub, mul and transpose with explanations |
| `Scroll` | scroll.dfy | app_internal.cpp: `keep_cursor_in_view` |
| `Worked` | worked.dfy | the 2 x 2 determinant and RREF cases of the tests, followed through the model step by step |

Explanations are a closed set, so the vtable is the datatype
`Explanations.Ctx`, with one constructor per operation.

Two places where the model follows the code:

- The swap caption is `$R_{t} <-> R_{s}$`, as row_ops.cpp writes it. One
  test (core/tests/test_rref.cpp:113) expects `\leftrightarrow` instead.
  `Captions.SwapCaption` follows the code.
- `space_null_basis` allocates a var_cols x k matrix. With var_cols = 7
  (allowed, since kMaxCols is 7) that allocation asks for 7 rows. Rows are
  limited to 6, so it fails with `InvalidDimension`. `Spaces.NullBasis`
  passes that failure on, as the code does.

## Model

| member | source | states |
|---|---|---|
| `Int64.CheckedAdd` | core/src/rational.cpp:50-74 | reports overflow exactly when the mathematical sum leaves the int64 range; otherwise returns the sum |
| `Int64.CheckedSub` | core/src/rational.cpp:76-93 | reports overflow exactly when the mathematical difference leaves the int64 range; otherwise returns the difference |
| `Int64.CheckedMul` | core/src/rational.cpp:95-152 | reports overflow exactly when the mathematical product leaves the int64 range; otherwise returns the product |
| `Int64.MulCaseCorrect` | core/src/rational.cpp:120-149 | in each sign case the division-based guard (against truncated MAX/b or MIN/b) holds exactly when the product overflows |
| `NumberTheory.CoprimeDef` | core/src/rational.cpp:12-19 | the coprimality used by the model is exactly "the Euclidean gcd is 1" |
| `NumberTheory.GcdDivides` | core/src/rational.cpp:12-19 | the loop's result is positive (unless both are 0) and divides both arguments |
| `NumberTheory.GcdGreatest` | core/src/rational.cpp:12-19 | every common divisor divides the loop's result |
| `NumberTheory.GcdQuotientsCoprime` | core/src/rational.cpp:42-46 | dividing both parts by their gcd leaves a coprime pair |
| `NumberTheory.Bezout` | core/src/rational.cpp:12-19 | the gcd is an integer combination of the arguments |
| `Rationals.FromInt` | core/include/matrix_core/rational.hpp:12 | `from_int(v)` is a valid rational of value v, zero exactly when v is 0 |
| `Rationals.Make` | core/src/rational.cpp:21-48 | DivisionByZero exactly for den 0; Overflow exactly for a nonzero num with negative den when den or num is INT64_MIN; 0/d is canonical zero; otherwise a valid (reduced, positive-denominator) rational equal to num/den |
| `Rationals.Reduce` | core/src/rational.cpp:42-47 | dividing by the gcd always succeeds and keeps the value |
| `Rationals.QCross` | core/src/rational.cpp:21-48 | two fractions are equal exactly when their cross products are equal |
| `Rationals.ZeroOneByValue` | core/include/matrix_core/rational.hpp:19 | for a valid rational, `is_zero` (num == 0) is the same as value 0, and num == den == 1 the same as value 1 |
| `Rationals.ValSign` | core/include/matrix_core/rational.hpp:16-17 | the sign of the numerator is the sign of the value (the denominator is positive) |
| `Rationals.Neg` | core/src/rational.cpp:168-179 | Overflow exactly when num is INT64_MIN; otherwise the exact negation |
| `Rationals.Add` | core/src/rational.cpp:181-207 | fails only with Overflow; succeeds whenever the unreduced cross products an*bd, bn*ad, their sum and ad*bd all fit in int64 (the gcd reduction only shrinks them); a result is valid and exactly a + b |
| `Rationals.Sub` | core/src/rational.cpp:209-241 | fails only with Overflow; succeeds whenever an*bd, bn*ad, their difference and ad*bd all fit in int64; a result is valid and exactly a - b |
| `Rationals.Mul` | core/src/rational.cpp:243-266 | fails only with Overflow; succeeds whenever an*bn and ad*bd fit in int64 (the cross-reduction only shrinks them); a result is valid and exactly a * b |
| `Rationals.Div` | core/src/rational.cpp:268-280 | DivisionByZero exactly when b is zero; Overflow whenever b's numerator is INT64_MIN (its reciprocal cannot be formed), even for a = 0; succeeds whenever the products with b's reciprocal, an*bd up to sign and ad*\|bn\|, fit; a result is valid and exactly a / b |
| `Rationals.Recip` | core/src/rational.cpp:274-277 | `make(b.den, b.num)` of a nonzero b overflows exactly when num is INT64_MIN, and otherwise is exactly 1 / b, namely the canonical (+-bd)/\|bn\| with the sign of bn moved to the numerator |
| `Rationals.IntegerAdd` | core/src/rational.cpp:181-207 | on integers x/1 and y/1, add succeeds exactly when x + y fits in int64, with result (x + y)/1 |
| `Rationals.IntegerSub` | core/src/rational.cpp:209-241 | on integers, sub succeeds exactly when x - y fits in int64, with result (x - y)/1 |
| `Rationals.IntegerMul` | core/src/rational.cpp:243-266 | on integers, mul succeeds exactly when x * y fits in int64, with result (x * y)/1 |
| `Rationals.ArithmeticExamples` | core/tests/test_rational.cpp:53-121 | 1/2 + 1/3 = 5/6, 3/4 * 2/3 = 1/2, (3/4) / (2/3) = 9/8, while MAX + 1, 0 - MIN and MAX * 2 overflow |
| `Writers.Fresh` | core/include/matrix_core/writer.hpp:15-18 | a new writer holds no text and keeps its capacity |
| `Writers.Put` | core/include/matrix_core/writer.hpp:20-28 | succeeds exactly when a character and the NUL still fit; then appends it; on BufferTooSmall the writer is unchanged |
| `Writers.Append` | core/include/matrix_core/writer.hpp:30-39 | succeeds exactly when the whole string fits; in every case the text gains the longest prefix of s that fits (writes stop at the first failing put) |
| `Writers.AppendChain` | core/include/matrix_core/writer.hpp:30-39 | appending s and then t (skipping t after an error) is one append of s + t |
| `Writers.DecimalRoundTrip` | core/include/matrix_core/writer.hpp:41-55 | the decimal digits of v read back as v and carry no leading zero |
| `Writers.DigitsReversed` | core/include/matrix_core/writer.hpp:44-53 | the digits collected least-significant first and emitted backwards are the decimal text |
| `Writers.PutBackwards` | core/include/matrix_core/writer.hpp:49-53 | putting a buffer from its end is one append of the reversed buffer |
| `Writers.AppendU64` | core/include/matrix_core/writer.hpp:41-55 | `append_u64` is one append of the decimal text of v |
| `Writers.AppendI64` | core/include/matrix_core/writer.hpp:57-65 | `append_i64` is one append of '-' (for negatives) followed by the magnitude's digits, INT64_MIN included |
| `Writers.PutIsAppend` | core/include/matrix_core/writer.hpp:20-39 | a single put is an append of that one character |
| `Writers.AppendIndex1` | core/include/matrix_core/writer.hpp:67-68 | `append_index1(v)` appends the decimal text of v + 1 |
| `Writers.AppendRationalLatex` | core/include/matrix_core/writer.hpp:70-88 | appends the integer text when den is 1, otherwise `\frac{num}{den}`, as one append |
| `Arenas.Reset` | core/include/matrix_core/arena.hpp:13-17 | rebinding yields a valid arena over the new region with nothing handed out |
| `Arenas.Clear` | core/include/matrix_core/arena.hpp:19 | clearing empties the arena and keeps its region |
| `Arenas.Rewind` | core/include/matrix_core/arena.hpp:26-29 | a mark at or below the fill level becomes the fill level; a mark above it changes nothing; the arena never grows |
| `Arenas.AlignUp` | core/include/matrix_core/arena.hpp:39 | `(x + align - 1) & ~(align - 1)` for a power-of-two align is the least multiple of align at or above x |
| `Arenas.Allocate` | core/include/matrix_core/arena.hpp:31-50 | no region, no capacity or a zero size gives null; a block is aligned, and the fill level becomes its end relative to the base |
| `Arenas.AllocateExact` | core/include/matrix_core/arena.hpp:31-50 | (without address wrap-around) the block starts at the aligned current end, and allocation succeeds exactly when the block ends within capacity |
| `Arenas.AllocateInside` | core/include/matrix_core/arena.hpp:31-50 | a block lies between the old fill point and the end of the region |
| `Arenas.AllocateGrows` | core/include/matrix_core/arena.hpp:31-50 | allocation never lowers the fill level |
| `Arenas.EndScope` | core/include/matrix_core/arena.hpp:67-77 | an active scope rewinds to its mark on exit; a committed one leaves the arena alone |
| `Arenas.ScopeRollsBack` | core/include/matrix_core/arena.hpp:58-85 | an uncommitted scope around an allocation restores the arena exactly |
| `Arenas.EnterScratch` | core/include/matrix_core/arena.hpp:89-91 | entering a scratch scope empties the arena over the same region |
| `Matrices.Zeros` | core/src/matrix_view.cpp:22-23 | every entry of a fresh matrix is the canonical zero |
| `Matrices.Alloc` | core/src/matrix_view.cpp:10-30 | Internal exactly for a null out, InvalidDimension exactly for a dimension outside 1..6 x 1..7, Overflow only when the arena cannot hold rows*cols rationals; a success is the zero matrix of that shape |
| `Matrices.Copy` | core/src/matrix_view.cpp:46-57 | DimensionMismatch exactly when the shapes differ; otherwise the destination becomes the source |
| `Matrices.Clone` | core/src/matrix_view.cpp:32-44 | InvalidDimension exactly for an invalid shape; a success is a copy of the source |
| `Matrices.FillZero` | core/src/matrix_view.cpp:59-66 | the result is the zero matrix of the same shape |
| `Matrices.Entry` | core/src/matrix_view.cpp:76-80 | an entry of add, sub or mul fails only with Overflow, and is exactly the sum, the difference, or the row-by-column dot product |
| `Matrices.DotFrom` | core/src/matrix_view.cpp:112-123 | the running sum over k.. is exactly the starting sum plus the remaining products |
| `Matrices.FillRow` | core/src/matrix_view.cpp:75-81 | the row loop succeeds exactly when every remaining entry does; earlier entries and other rows are untouched; each written entry is its exact value |
| `Matrices.FillFrom` | core/src/matrix_view.cpp:74-82 | the row-major loop succeeds exactly when every remaining entry does, stops at the first Overflow, and never writes a wrong value |
| `Matrices.MatrixAdd` | core/src/matrix_view.cpp:68-84 | DimensionMismatch exactly when a, b and out differ in shape; on Ok every entry is a + b exactly |
| `Matrices.MatrixSub` | core/src/matrix_view.cpp:86-102 | DimensionMismatch exactly when a, b and out differ in shape; on Ok every entry is a - b exactly |
| `Matrices.MatrixMul` | core/src/matrix_view.cpp:104-128 | DimensionMismatch exactly when a.cols != b.rows or out is not a.rows x b.cols; on Ok every entry is the exact row-by-column sum |
| `Matrices.MatrixTranspose` | core/src/matrix_view.cpp:130-139 | DimensionMismatch (out untouched) exactly when out is not cols x rows; otherwise out is the transpose |
| `Matrices.TransposeInvolution` | core/src/matrix_view.cpp:134-137 | transposing twice gives back the matrix |
| `RowOps.ApplySwap` | core/include/matrix_core/row_reduction.hpp:17-22 | rows r1 and r2 are exchanged and every other row is unchanged (a no-op when they coincide) |
| `RowOps.SwapInvolution` | core/include/matrix_core/row_reduction.hpp:17-22 | swapping the same two rows twice restores the matrix |
| `RowOps.ApplyScale` | core/include/matrix_core/row_reduction.hpp:25-34 | succeeds exactly when every product in the row fits; then the row is exactly k times the old row; other rows never change |
| `RowOps.ScaleFrom` | core/include/matrix_core/row_reduction.hpp:26-33 | the column loop stops at the first overflowing product, leaving every entry either old or exactly scaled |
| `RowOps.AddMulEntry` | core/include/matrix_core/row_reduction.hpp:39-47 | one entry of `R_dst + k R_src` fails only with Overflow and is otherwise exact |
| `RowOps.ApplyAddMul` | core/include/matrix_core/row_reduction.hpp:37-50 | succeeds exactly when every entry's multiply and add fit; then row dst is exactly `R_dst + k R_src`; other rows never change |
| `RowOps.AddMulFrom` | core/include/matrix_core/row_reduction.hpp:38-49 | the column loop stops at the first overflow, leaving every entry either old or exactly updated |
| `RowOps.Primitive` | core/include/matrix_core/row_reduction.hpp:16-50 | a row op dispatches to swap (always Ok), scale or add-multiple |
| `RowOps.ReplaySnoc` | core/include/matrix_core/row_reduction.hpp:16-50 | replaying ops then one more op is replaying the ops and, if they succeeded, applying the op |
| `RowOps.SwapInjective` | core/include/matrix_core/row_reduction.hpp:17-22 | two matrices that the same swap takes to the same matrix are equal |
| `RowOps.ScaleInjective` | core/include/matrix_core/row_reduction.hpp:25-34 | two matrices that the same successful scale by a nonzero k takes to the same matrix are equal |
| `RowOps.AddMulInjective` | core/include/matrix_core/row_reduction.hpp:37-50 | two matrices that the same successful `R_dst + k R_src` (dst != src) takes to the same matrix are equal |
| `RowOps.ApplyInjective` | core/include/matrix_core/row_reduction.hpp:16-50 | an invertible row op (any swap, a scale by nonzero k, an add between distinct rows) that succeeds on two matrices with the same result was given the same matrix |
| `RowOps.ReplayInjective` | core/include/matrix_core/row_reduction.hpp:16-50 | a successful replay of invertible ops that takes two matrices to the same result was given the same matrix: the recorded ops can be undone |
| `RowOps.NewObserver` | core/include/matrix_core/row_reduction.hpp:53-57 | a fresh observer has counted nothing and has no last op |
| `RowOps.OnOp` | core/include/matrix_core/row_reduction.hpp:59-64 | notifying counts the op, records it as the last one, and asks to stop exactly when the count reaches the 1-based target |
| `Kernels.Record` | core/src/row_reduction.cpp:31-38 | reporting an op appends it to the trace, keeps the observer consistent with the trace, and stops exactly when the observer's target is reached |
| `Kernels.ReplaysRecord` | core/src/row_reduction.cpp:29-38 | after an applied and reported op, replaying the trace from the start reproduces the current matrix |
| `Kernels.ReplayAppend` | core/src/row_reduction.cpp:10-126 | replaying a + b is replaying b on the result of a, when a succeeds |
| `Kernels.CutRecord` | core/src/row_reduction.cpp:36-37 | an observed run and an unobserved one stay in step until the observed one reaches its target |
| `Kernels.FindPivot` | core/src/row_reduction.cpp:17-25 | the first row at or below `from` with a nonzero entry in the column, or none exactly when all are zero |
| `Echelon.SwapStep` | core/src/row_reduction.cpp:29-39 | exchanges the pivot row with the found row and leaves every other row alone, recording a swap only when the rows differ |
| `Echelon.NormalizeStep` | core/src/row_reduction.cpp:41-82 | only the pivot row changes; for RREF the pivot becomes exactly 1 (no op when it already is), for REF it becomes positive (no op when it already is); an entry of the pivot row that was zero stays zero; failure is Overflow |
| `Echelon.ScaleStep` | core/src/row_reduction.cpp:50-60 | scales the pivot row exactly, so its zero entries stay zero, and records a Scale op |
| `Echelon.FactorValue` | core/src/row_reduction.cpp:91-105 | the elimination factor is -entry for RREF and -entry/pivot for REF |
| `Echelon.EliminateRow` | core/src/row_reduction.cpp:85-119 | only that row changes; when the step goes on, its entry in the pivot column becomes zero and every column in which the pivot row is zero is unchanged |
| `Echelon.AddMulStep` | core/src/row_reduction.cpp:107-119 | adds the factor times the pivot row exactly and records an AddMul op |
| `Echelon.EliminateClears` | core/src/row_reduction.cpp:85-120 | a completed elimination pass zeroes the pivot column in every row it visits (below the pivot only for REF) |
| `Echelon.EliminateKeeps` | core/src/row_reduction.cpp:85-120 | the elimination pass leaves the rows before its start untouched |
| `Echelon.EliminateKeepsColumns` | core/src/row_reduction.cpp:85-120 | the elimination pass changes no column in which the pivot row is zero, so earlier pivot columns stay cleared |
| `Echelon.EliminateBound` | core/src/row_reduction.cpp:85-120 | the pass records at most one op per visited row |
| `Echelon.PivotColumnBound` | core/src/row_reduction.cpp:15-123 | one pivot column records at most rows + 2 ops |
| `Echelon.EchelonApply` | core/src/row_reduction.cpp:10-126 | fails only with Overflow, stops early only when observed, and replaying the recorded trace on the input reproduces the result; every recorded op is invertible (a swap, a scale by 1/pivot or -1, an add between distinct rows); the trace is bounded |
| `Echelon.EchelonUndoable` | core/src/row_reduction.cpp:29-119 | the only matrix of the input's shape that the recorded ops take to the result is the input itself |
| `Echelon.EchelonCut` | core/src/row_reduction.cpp:36-37 | a run observed with target T is the unobserved run cut after its T-th op |
| `Echelon.EchelonNoTarget` | core/include/matrix_core/row_reduction.hpp:54 | an observer with the default target (SIZE_MAX) never stops the run, so it matches the unobserved one |
| `EchelonForm.SwapProgress` | core/src/row_reduction.cpp:29-39 | exchanging two rows at or below the pivot row keeps the echelon invariant: the finished rows and columns are untouched |
| `EchelonForm.NormalizeProgress` | core/src/row_reduction.cpp:41-82 | scaling the pivot row keeps the echelon invariant, because the pivot row is still zero on the processed columns |
| `EchelonForm.EliminateProgress` | core/src/row_reduction.cpp:84-122 | after elimination the pivot column joins the finished ones: the new pivot is normalised, the only nonzero entry of its column (REF: from its row down), and the row count advances |
| `EchelonForm.PivotColumnProgress` | core/src/row_reduction.cpp:17-122 | a column with a nonzero entry at or below the pivot row, carried through swap, normalisation and elimination, extends the invariant by one pivot |
| `EchelonForm.SkipProgress` | core/src/row_reduction.cpp:26-27 | a column with no nonzero entry at or below the pivot row is skipped and the invariant extends over it |
| `EchelonForm.ColumnsProgress` | core/src/row_reduction.cpp:15-123 | a completed column loop leaves the invariant over every column, for some strictly increasing list of pivot columns |
| `EchelonForm.ReducedOf` | core/src/row_reduction.cpp:41-61 | the RREF invariant over all columns is reduced row echelon form: zero rows last, leading entries move right, each leading entry is 1 and alone in its column |
| `EchelonForm.RowEchelonOf` | core/src/row_reduction.cpp:62-81 | the REF invariant over all columns is row echelon form with positive leading entries and zeros below each |
| `EchelonForm.RrefReduced` | core/src/row_reduction.cpp:10-126 | a completed RREF run of echelon_apply leaves its matrix in reduced row echelon form |
| `EchelonForm.ReducedPivotAt` | core/src/row_reduction.cpp:19-27 | in a matrix in RREF whose rows from prow on are zero before col, a nonzero entry at or below prow in col is at prow, equals 1 and is the only nonzero entry of its column |
| `EchelonForm.EliminateIdle` | core/src/row_reduction.cpp:85-120 | when every other row is already zero in the pivot column, elimination records no op and leaves the state as it was |
| `EchelonForm.PivotColumnIdle` | core/src/row_reduction.cpp:19-121 | on a matrix in RREF the pivot found is the current row, no swap, scale or add happens, and the rows below stay zero up to the next column |
| `EchelonForm.ColumnsIdle` | core/src/row_reduction.cpp:15-123 | on a matrix in RREF the column loop from any column records no op and leaves the state as it was |
| `EchelonForm.RrefIdempotent` | core/src/row_reduction.cpp:10-126 | RREF of a matrix already in RREF completes with the matrix unchanged and no op recorded or reported |
| `EchelonForm.RrefTwice` | core/src/row_reduction.cpp:10-126 | running RREF again on the result of a completed RREF run changes nothing and records nothing |
| `EchelonForm.RefEchelon` | core/src/row_reduction.cpp:10-126 | a completed REF run leaves row echelon form, each leading entry positive with zeros below it |
| `Captions.RowOpCaption` | core/src/row_ops.cpp:7-80 | the caption written into a fresh buffer is the op's caption text, succeeding exactly when it fits, otherwise BufferTooSmall with the buffer filled |
| `Captions.SwapCaption` | core/src/row_ops.cpp:15-29 | a swap's caption is `R_{i} <-> R_{j}` with 1-based rows |
| `Captions.ScaleCaption` | core/src/row_ops.cpp:30-50 | a scale's caption is `R_{i} <- k R_{i}` with k in LaTeX |
| `Captions.AddMulCaption` | core/src/row_ops.cpp:51-77 | an add-multiple's caption is `R_{i} <- R_{i} + k R_{j}`, with the sign of k folded into the operator |
| `Latex.WriteEntries` | core/src/latex_view.cpp:72-80 | the column loop writes the row's entries separated by `&` |
| `Latex.WriteRows` | core/src/latex_view.cpp:69-83 | the row loop writes the rows separated by `\\` |
| `Latex.WriteMatrixInner` | core/src/latex_view.cpp:50-88 | writes `\begin{bmatrix}` (or vmatrix), the rows, and the matching `\end`, as one append of the matrix text |
| `Latex.WriteMatrix` | core/src/latex_view.cpp:185-191 | the matrix text in a fresh buffer, succeeding exactly when it fits |
| `Latex.WriteMatrixDisplay` | core/src/latex_view.cpp:193-198 | the matrix text wrapped in `$$ … $$`, succeeding exactly when it fits |
| `Latex.WriteRational` | core/src/latex_view.cpp:171-176 | a rational's LaTeX in a fresh buffer |
| `Latex.WriteRationalDisplay` | core/src/latex_view.cpp:178-183 | a rational's LaTeX wrapped in `$$ … $$` |
| `Latex.PutRepeat` | core/src/latex_view.cpp:113-118 | putting a character n times appends exactly n copies |
| `Latex.WriteAugmentedAsWritten` | core/src/latex_view.cpp:100-157 | the augmented writer as written: row mismatch, then an empty side, are rejected; otherwise the column count is computed in uint8_t (so it wraps modulo 256) |
| `Latex.AugmentedWraps` | core/src/latex_view.cpp:110-131 | with 128 + 128 columns the uint8_t total is 0: the column spec comes out empty and no entry is written |
| `Latex.WriteAugmentedInner` | core/src/latex_view.cpp:100-157 | the corrected writer: row mismatch gives DimensionMismatch and an empty side InvalidDimension, both writing nothing; otherwise the `[A | B]` text |
| `Latex.AugRowsBeside` | core/src/latex_view.cpp:133-152 | with an unwrapped column count, the augmented rows are exactly the rows of the two matrices placed side by side |
| `Latex.Beside` | core/src/latex_view.cpp:137-147 | the side-by-side matrix has the left's rows and both widths, each entry taken from the side its column falls in |
| `Latex.WriteAugmented` | core/src/latex_view.cpp:200-205 | the augmented text in a fresh buffer, with the inner writer's error cases |
| `Latex.WriteAugmentedDisplay` | core/src/latex_view.cpp:207-212 | the augmented text wrapped in `$$ … $$`; Ok only for a valid pair; a row mismatch leaves the opening `$$` in the buffer |
| `Scroll.KeepCursorInView` | shell/src/app_internal.cpp:31-54 | the result is a valid scroll in 0..max(count - visible, 0); a cursor inside the list ends up in the window; an in-view cursor keeps the window; a cursor above it starts the window, one below it ends the window, and past the end the window is pinned to the end |
| `Scroll.KeepCursorIdempotent` | shell/src/app_internal.cpp:31-54 | applying it to its own result changes nothing |
| `Explaining.Persist` | core/src/ops_basic_view.cpp:118-132 | no explanation asked: nothing happens; a missing persist arena or out slot is Internal; otherwise Ok exactly when the context fits in the persist arena, and a failed attempt leaves the arena as it was |
| `Det.Stale` | core/src/det_detail.cpp:16-45 | a reported swap carries the scalar of the op reported before it (0 at first), since the swap branch never writes `last.scalar` |
| `Det.DetSwap` | core/src/det_detail.cpp:37-48 | swaps the pivot row up, reporting a swap only when the rows differ |
| `Det.DetFactorValue` | core/src/det_detail.cpp:56-63 | the factor is exactly -(below / pivot) |
| `Det.DetRun` | core/src/det_detail.cpp:19-79 | the elimination fails only with Overflow (or stops on a zero column), stops early only when observed, and replaying its trace reproduces the working matrix; every recorded op is invertible |
| `Det.DetUndoable` | core/src/det_detail.cpp:19-79 | the only matrix of the input's shape that the recorded ops take to the working matrix is the input itself |
| `Det.Sign` | core/src/det_detail.cpp:14-39 | the sign is +1 exactly when the trace holds an even number of swaps |
| `Det.DiagProduct` | core/src/det_detail.cpp:92-99 | the diagonal product fails only with Overflow and is otherwise exactly the starting value times the diagonal |
| `Det.DetElim` | core/src/det_detail.cpp:7-102 | NotSquare (nothing written) for a non-square matrix; otherwise Ok or Overflow, and Ok always delivers a valid determinant and an op count |
| `Det.Report` | core/src/det_detail.cpp:30-101 | a zero pivot column reports det 0 with the count so far and no last op; reaching stop_after reports det 0; otherwise det is the sign times the diagonal product |
| `Det.DetEliminateClears` | core/src/det_detail.cpp:51-76 | a completed elimination pass zeroes the column below the pivot and keeps the earlier columns upper-triangular |
| `Det.DetColumnsUpper` | core/src/det_detail.cpp:19-79 | a completed run leaves an upper-triangular matrix with nonzero pivots |
| `Det.DetColumnsBound` | core/src/det_detail.cpp:19-79 | the run reports at most COLUMN_OPS ops per column |
| `Det.DetRunBound` | core/src/det_detail.cpp:19-79 | the op count never reaches SIZE_MAX, so the unobserved run (stop_after = SIZE_MAX) never stops early |
| `Det.DetRunCut` | core/src/det_detail.cpp:46-47 | a run stopped after T ops is the full run cut after its T-th op |
| `Det.DetElimComplete` | core/src/det_detail.cpp:7-102 | the unstopped det_elim returns the full run's matrix, count and last op; a nonzero determinant is the signed diagonal product of the triangular result |
| `Det.DetRunTriangular` | core/src/det_detail.cpp:19-79 | a completed run is upper-triangular with nonzero pivots |
| `Det.DetElimStep` | core/src/det_detail.cpp:46-90 | stopping after T ops (when the run has that many) gives det 0, count T, the T-th op as last, and the matrix the first T ops make; otherwise it is the unstopped result |
| `DetOps.DetElimLastFits` | core/src/det_detail.cpp:37-73 | the last op det_elim reports names rows of the matrix, so it can be captioned and replayed |
| `DetOps.Captioned` | core/src/ops_det_ondemand.cpp:58-76 | a row-op step writes the op's caption (when there is a caption buffer) and the displayed matrix; it fails only with BufferTooSmall |
| `DetOps.ElimStepShows` | core/src/ops_det_ondemand.cpp:47-76 | step k reruns det_elim stopping after k ops: when the full run has k ops it shows the k-th op and what the first k ops make of the input; otherwise it writes nothing and fails |
| `DetOps.OpDet` | core/src/ops_det_ondemand.cpp:86-127 | NotSquare (nothing touched) for a non-square input; InvalidDimension exactly for an invalid shape; a value is always valid; a context is kept exactly when asked for and Ok, and holds the input and the value |
| `DetOps.OpDetCorrect` | core/src/ops_det_ondemand.cpp:86-127 | the determinant is 0 exactly when elimination meets a zero pivot column; otherwise it is the signed diagonal product of the triangular matrix the recorded ops produce; Overflow gives no value; the kept op count is the run's |
| `DetOps.OpDetElim` | core/src/ops_det_ondemand.cpp:100-110 | op_det reports det_elim's value, error and op count |
| `DetOps.DetStepCount` | core/src/ops_det_ondemand.cpp:19-23 | a determinant explanation has the input, one step per op, and the value |
| `DetOps.DetRender` | core/src/ops_det_ondemand.cpp:25-76 | Internal without scratch; StepOutOfRange from the step count on; step 0 shows the input between `vmatrix` bars and the last step the value; captions only on op steps |
| `DetOps.DetRenderStep` | core/src/ops_det_ondemand.cpp:47-76 | every op step k shows the k-th op of the full run and the matrix its first k ops produce |
| `DetOps.SetColumn` | core/src/ops_det_replace_column_ondemand.cpp:33-36 | rows from `row` on get b's entry in the chosen column; all else is unchanged |
| `DetOps.ReplaceColumn` | core/src/ops_det_replace_column_ondemand.cpp:27-38 | fails exactly when cloning a fails; otherwise the clone of a with column col replaced by b |
| `DetOps.OpDetReplaceColumn` | core/src/ops_det_replace_column_ondemand.cpp:107-163 | NotSquare, then a b that is not an n x 1 column (DimensionMismatch), then col out of range (IndexOutOfRange) are rejected touching nothing; a context is kept exactly when asked for and Ok |
| `DetOps.ReplaceColumnIsDet` | core/src/ops_det_replace_column_ondemand.cpp:124-140 | without explanation, the result is op_det of A with column col replaced by b |
| `DetOps.ReplaceStepCount` | core/src/ops_det_replace_column_ondemand.cpp:22-25 | the explanation has A_col, one step per op, and the value |
| `DetOps.ReplaceRender` | core/src/ops_det_replace_column_ondemand.cpp:40-97 | Internal without scratch; StepOutOfRange from the step count on; A_col is rebuilt first (its error ends the step); step 0 shows it and the last step the value |
| `DetOps.ReplaceRenderStep` | core/src/ops_det_replace_column_ondemand.cpp:66-97 | every op step k shows the k-th op of det_elim on A_col and the matrix its first k ops produce |
| `DetOps.DetOf` | core/src/ops_cramer.cpp:8-25 | the helper determinant fails only with InvalidDimension, Overflow or NotSquare, and a value is valid |
| `DetOps.DetReplaceColOf` | core/src/ops_cramer.cpp:27-47 | the helper determinant of A_col fails only with InvalidDimension, Overflow or NotSquare, and a value is valid |
| `DetOps.DetReplaceColIsOp` | core/src/ops_cramer.cpp:27-47 | the helper agrees with op_det_replace_column without explanation |
| `DetOps.DetOfIsOpDet` | core/src/ops_cramer.cpp:8-25 | the helper agrees with op_det without explanation |
| `DetOps.CramerFrom` | core/src/ops_cramer.cpp:70-86 | the loop over columns fills x_i = det(A_i) / det(A) for every remaining i, or stops at the first error, reported with A's shape, leaving earlier entries as they were; a finished loop reports the default error with no shape |
| `DetOps.OpCramerSolve` | core/src/ops_cramer.cpp:51-89 | NotSquare, then a b or x that is not an n x 1 column (DimensionMismatch) are rejected with x untouched; Singular exactly when det(A) is 0; InvalidDimension and Overflow carry A's shape; on Ok the error is the default one with no shape and every x_i is det(A_i) / det(A) (Cramer's rule) |
| `EchelonOps.OpEchelon` | core/src/ops_rref_ondemand.cpp:67-104 | an out of another shape is DimensionMismatch with nothing touched; otherwise out receives the reduced matrix; a context is kept exactly when asked for and Ok, holding the input and the kind |
| `EchelonOps.OpEchelonCorrect` | core/src/ops_rref_ondemand.cpp:67-104 | out is what echelon_apply makes of the input; Overflow is reported against a with no context; on success replaying the recorded ops on a yields out and the kept op count is the run's |
| `EchelonOps.OpEchelonShape` | core/src/ops_rref_ondemand.cpp:67-104 | whenever the reduction does not overflow, out is in reduced row echelon form (RREF) or in row echelon form with positive leading entries (REF) |
| `EchelonOps.EchelonStepCount` | core/src/ops_rref_ondemand.cpp:18-21 | the explanation has the input and one step per op |
| `EchelonOps.EchelonRender` | core/src/ops_rref_ondemand.cpp:23-57 | Internal without scratch; step 0 shows the input; the error codes are those of clone, echelon_apply and the writers; captions only on op steps |
| `EchelonOps.EchelonRenderStep` | core/src/ops_rref_ondemand.cpp:23-57 | step k shows the k-th op of the unobserved run and the matrix its first k ops make; when the run has fewer ops the step writes nothing and fails with the run's error or StepOutOfRange |
| `Inverse.AugmentedHalves` | core/src/ops_inverse_ondemand.cpp:104-137 | the left half of [A \| I] is A and the right half is the identity |
| `Inverse.AugmentedColsAsWritten` | core/src/ops_inverse_ondemand.cpp:111-113 | the augmented width as written is `2 * n` stored in a uint8_t: 2n below order 128, 2n - 256 from there on |
| `Inverse.AugmentedCountAsWritten` | core/src/ops_inverse_ondemand.cpp:112-114 | the block requested holds n x 2n cells below order 128 and none at order 128 |
| `Inverse.BuildAugmentedAsWritten` | core/src/ops_inverse_ondemand.cpp:104-137 | NotSquare for a non-square input; otherwise it succeeds exactly when the arena hands out the block of n * uint8(2n) rationals (Overflow otherwise) and then makes n * (n + 1) writes |
| `Inverse.AugmentedWritesInBlock` | core/src/ops_inverse_ondemand.cpp:111-131 | below order 128 every write of build_augmented lands inside the block it allocated |
| `Inverse.AugmentedWrapRefused` | core/src/ops_inverse_ondemand.cpp:111-117 | at order 128 the width wraps to 0, the empty block is refused, and the call ends with Overflow before any write |
| `Inverse.AugmentedWrapOverruns` | core/src/ops_inverse_ondemand.cpp:111-131 | at order 129 the width wraps to 2, the block holds 258 cells, and the copy of A's entry (65, 128) is written at index 258, past its end |
| `Inverse.AugmentedFirstOverrun` | core/src/ops_inverse_ondemand.cpp:111-131 | at order 129 every write before row 43's identity entry stays inside the 258 cells, and that entry (row 43, column 172 of the augmented matrix) is the first one written at index 258 |
| `Inverse.BuildAugmented` | core/src/ops_inverse_ondemand.cpp:104-137 | NotSquare for a non-square input; InvalidDimension exactly when 2n does not fit in a uint8_t; otherwise it succeeds exactly when the arena holds n x 2n rationals, giving [A \| I] |
| `Inverse.InverseRun` | core/src/ops_inverse_ondemand.cpp:17-102 | Gauss-Jordan on [A \| I] fails only with Overflow or Singular, stops early only when observed, and replaying its trace reproduces its matrix; every recorded op is invertible |
| `Inverse.InverseUndoable` | core/src/ops_inverse_ondemand.cpp:17-102 | the only matrix of the augmented shape that the recorded ops take to the result is [A \| I] itself |
| `Inverse.InvColumnsUnits` | core/src/ops_inverse_ondemand.cpp:25-100 | a completed pivot loop leaves unit columns in every pivot position |
| `Inverse.LeftIsIdentity` | core/src/ops_inverse_ondemand.cpp:25-100 | unit columns in every position of the left block make it the identity |
| `Inverse.InverseRunIdentity` | core/src/ops_inverse_ondemand.cpp:17-102 | a completed run turns the left half into the identity, through the ops it records |
| `Inverse.InverseRunBound` | core/src/ops_inverse_ondemand.cpp:17-102 | the op count stays below SIZE_MAX |
| `Inverse.InverseRunCut` | core/src/ops_inverse_ondemand.cpp:17-102 | a run observed with target T is the full run cut after its T-th op |
| `Inverse.InverseNoTarget` | core/src/ops_inverse_ondemand.cpp:17-102 | an observer with the default target changes nothing |
| `Inverse.OpInverse` | core/src/ops_inverse_ondemand.cpp:202-251 | NotSquare, then an out of another shape (DimensionMismatch), are rejected touching nothing; InvalidDimension and Singular leave out untouched; on Ok out has a's shape; a context is kept exactly when asked for and Ok |
| `Inverse.OpInverseCorrect` | core/src/ops_inverse_ondemand.cpp:202-251 | a failing run's error is reported against a with out untouched; a completed run reduces [A \| I] to [I \| X] through its recorded ops and out is X; the kept op count is the run's |
| `Inverse.InverseStepCount` | core/src/ops_inverse_ondemand.cpp:144-147 | the explanation has [A \| I] and one step per op |
| `Inverse.AugmentedDisplay` | core/src/ops_inverse_ondemand.cpp:179-191 | the shown augmented matrix is the two halves of the working matrix written side by side |
| `Inverse.InverseRender` | core/src/ops_inverse_ondemand.cpp:149-192 | Internal without scratch; StepOutOfRange from the step count on; captions only on op steps |
| `Inverse.InverseRenderStep` | core/src/ops_inverse_ondemand.cpp:149-192 | step 0 shows [A \| I]; step k shows the k-th op's caption and the two halves after the first k ops |
| `Minors.RowsWithout` | core/src/ops_minor_matrix.cpp:22-33 | copying every row but delR, each without column delC, keeps the remaining rows in order |
| `Minors.Submatrix` | core/src/ops_minor_matrix.cpp:8-37 | the submatrix is one smaller each way, entry (i, j) coming from the original with row delR and column delC skipped |
| `Minors.BuildSubmatrix` | core/src/ops_cofactor_element_ondemand.cpp:14-43 | NotSquare, then n <= 1 (InvalidDimension), then a deleted row or column out of range (IndexOutOfRange), then arena exhaustion (Overflow); a success is the submatrix |
| `Minors.SubDetCleared` | core/src/ops_minor_matrix.cpp:60 | each element's minor does not depend on what the scratch arena held before its scope cleared it |
| `Minors.SubDetIsDet` | core/src/ops_minor_matrix.cpp:62-75 | the minor of (i, j) is the determinant of the submatrix, as op_det computes it |
| `Minors.MinorFrom` | core/src/ops_minor_matrix.cpp:58-88 | the row-major loop writes the minor of every remaining element, or stops at the first element whose minor fails, reporting its error with i and j, leaving it and all later entries untouched |
| `Minors.OpMinorMatrix` | core/src/ops_minor_matrix.cpp:40-90 | NotSquare, then n <= 1 (InvalidDimension), then an out of another shape (DimensionMismatch) are rejected with out untouched; on Ok every entry of out is the corresponding minor |
| `Minors.MinorMatrixFails` | core/src/ops_minor_matrix.cpp:58-88 | a failure names the first failing element, whose submatrix determinant gave that error; earlier entries hold their minors and later ones are untouched |
| `Minors.Signed` | core/src/ops_cofactor_element_ondemand.cpp:236-244 | the cofactor is the minor for even i + j and its negation for odd i + j, failing with Overflow exactly when an odd position negates INT64_MIN |
| `Minors.OpCofactorElement` | core/src/ops_cofactor_element_ondemand.cpp:191-267 | NotSquare, then an element outside the matrix (IndexOutOfRange with i and j), are rejected; C_{1,1} of a 1 x 1 matrix is 1; a value is valid; a context is kept exactly when asked for and Ok, with minor and cofactor related by the sign rule |
| `Minors.MinorOfElement` | core/src/ops_cofactor_element_ondemand.cpp:213-234 | a 1 x 1 matrix has minor 1 and no ops; otherwise the minor succeeds exactly when the submatrix determinant does, and fails with its error |
| `Minors.CofactorIsSignedMinor` | core/src/ops_cofactor_element_ondemand.cpp:191-267 | the result is the signed determinant of the submatrix, its failure reported against a |
| `Minors.CofactorStepCount` | core/src/ops_cofactor_element_ondemand.cpp:54-60 | the explanation has A, the submatrix (for n > 1), one step per op, and the formula |
| `Minors.WriteCofactorLatex` | core/src/ops_cofactor_element_ondemand.cpp:62-106 | the formula step writes `C_{i,j} = (-1)^{i+j} M_{i,j} = v` with 1-based indices, as one append |
| `Minors.WriteDeleteCaption` | core/src/ops_cofactor_element_ondemand.cpp:139-150 | the submatrix step's caption is `Delete row i, col j` with 1-based indices |
| `Minors.CofactorRender` | core/src/ops_cofactor_element_ondemand.cpp:108-181 | Internal without scratch; StepOutOfRange from the step count on; step 0 shows A; for n <= 1 every later step is the formula; otherwise step 1 shows the submatrix (with the delete caption) and the last step is the formula |
| `Minors.CofactorRenderStep` | core/src/ops_cofactor_element_ondemand.cpp:158-175 | step k + 1 shows the k-th op of det_elim on the submatrix and the matrix its first k ops make |
| `Spaces.FindPivotCol` | core/src/spaces.cpp:9-15 | NO_PIVOT exactly when the row's first var_cols entries are all zero; otherwise the column of its first nonzero entry |
| `Spaces.PivotMask` | core/src/spaces.cpp:17-25 | bit c of the mask (c < 32) is set exactly when c is among the first rank listed pivot columns |
| `Spaces.InfoFromRref` | core/src/spaces.cpp:28-58 | InvalidDimension when var_cols exceeds the columns or kMaxCols; otherwise the pivot columns are exactly the columns among the first var_cols that lead a row, each with the first such row, listed by increasing pivot row, rank counts them, nullity is var_cols - rank and the mask marks them |
| `Spaces.DescribesConsistent` | core/src/spaces.cpp:161-172 | what space_info_from_rref reports satisfies what space_null_basis indexes by: pivot columns below var_cols, pivot rows inside the matrix |
| `Spaces.ColBasis` | core/src/spaces.cpp:60-92 | rank 0 gives a rows x 1 zero column; otherwise column k of the basis is column pivot_cols[k] of A; a pivot column outside A is InvalidDimension; allocation failures pass through |
| `Spaces.RowBasis` | core/src/spaces.cpp:94-125 | InvalidDimension when var_cols exceeds the columns; rank 0 gives a 1 x var_cols zero row; otherwise the first rank rows of the RREF on its first var_cols columns |
| `Spaces.ReducedPrefix` | core/src/spaces.cpp:28-52 | reduced form over all columns gives reduced form over the first var_cols columns, the block space_info_from_rref reads |
| `Spaces.NonzeroRowsFirst` | core/src/spaces.cpp:113-121 | in an RREF the rows nonzero on the first var_cols columns are exactly the first rank rows, so the row basis is every nonzero row |
| `Spaces.PivotRowIsIndex` | core/src/spaces.cpp:42-52 | in an RREF the k-th listed pivot column has row k as its pivot row |
| `Spaces.PivotColsIncrease` | core/src/spaces.cpp:42-52 | in an RREF the pivot columns are listed left to right |
| `Spaces.FreeCols` | core/src/spaces.cpp:137-142 | the free columns are, in increasing order, exactly the columns among the first var_cols without a pivot row, var_cols - rank of them |
| `Spaces.ListFree` | core/src/spaces.cpp:137-142 | the loop collects the free columns |
| `Spaces.NullBasis` | core/src/spaces.cpp:127-177 | InvalidDimension for var_cols beyond the columns or kMaxCols; no free column gives the var_cols x 1 zero vector; otherwise one column per free column with 1 at it and minus the pivot row's entry at each pivot column, Overflow exactly when such a negation overflows; on an RREF every basis vector solves A x = 0 |
| `Spaces.NullColumnsSolve` | core/src/spaces.cpp:155-176 | every null-space vector built from an RREF has zero dot product with every row |
| `Spaces.NullVectorsIndependent` | core/src/spaces.cpp:161-163 | the vector of free column k has 1 at its own free column and 0 at every other free column, so the vectors are independent |
| `Explanations.Make` | core/src/explanation.cpp:48-53 | the handle is available exactly when a context is given, and holds it |
| `Explanations.MoveConstruct` | core/src/explanation.cpp:6-11 | the new handle takes the content and the moved-from one is left unavailable with no steps |
| `Explanations.MoveAssign` | core/src/explanation.cpp:13-23 | self-assignment changes nothing; otherwise the target takes the other's content and the other is emptied |
| `Explanations.StepCount` | core/src/explanation.cpp:32-36 | 0 exactly for an unavailable handle, otherwise the operation's own step count |
| `Explanations.RenderStep` | core/src/explanation.cpp:38-46 | Internal for an unavailable handle; otherwise the operation's renderer with the scratch arena cleared |
| `Explanations.RenderBeyondCount` | core/src/explanation.cpp:32-46 | every index from the step count on is StepOutOfRange, for every operation except echelon |
| `Explanations.ScratchLevelIrrelevant` | core/src/explanation.cpp:41-43 | a step renders the same whatever the scratch arena's fill level |
| `Vectors.VecInfoOf` | core/src/ops_vector_ondemand.cpp:15-32 | a vector exactly when the matrix is 1 x n (n >= 1, a row vector, so 1 x 1 is a row) or m x 1 (m >= 1, a column); its length is the long side; any other shape is InvalidDimension |
| `Vectors.SetAt` | core/src/ops_vector_ondemand.cpp:38-40 | writing entry i of a vector changes that entry and no other |
| `Vectors.VectorsEqual` | core/src/ops_vector_ondemand.cpp:34-36 | two vectors of the same shape with equal values at every index are the same matrix |
| `Vectors.SquaresZero` | core/src/ops_vector_ondemand.cpp:42-61 | u . u is never negative and is 0 exactly for the zero vector |
| `Vectors.DotLoop` | core/src/ops_vector_ondemand.cpp:49-59 | the accumulation loop yields the exact sum of the carried value and the remaining products, or Overflow from the first failing multiply or add |
| `Vectors.DotRaw` | core/src/ops_vector_ondemand.cpp:42-61 | a success is the exact dot product of the two vectors' values; the only failure is Overflow |
| `Vectors.DotOf` | core/src/ops_vector_ondemand.cpp:63-82 | non-vectors are InvalidDimension, different lengths DimensionMismatch, lengths beyond MAX_ROWS InvalidDimension; a success carries both shapes and the exact dot product |
| `Vectors.OpDot` | core/src/ops_vector_ondemand.cpp:476-512 | the shape errors carry both dimensions and leave *out alone; a product in *out is the exact dot product, written even when storing the explanation then fails |
| `Vectors.DotStepCount` | core/src/ops_vector_ondemand.cpp:203-206 | the dot explanation has exactly one step |
| `Vectors.WriteTermsText` | core/src/ops_vector_ondemand.cpp:224-245 | the term loop appends `(u_i)\cdot(v_i)` for each i, joined by ` + ` |
| `Vectors.DotRender` | core/src/ops_vector_ondemand.cpp:208-254 | every index from 1 is StepOutOfRange; step 0 has no caption and writes `$$u\cdot v = ` + the terms + ` = ` + the product + `$$` |
| `Vectors.OpDotExplained` | core/src/ops_vector_ondemand.cpp:476-512 | a successful explained dot keeps a context with one step, whose product is the one returned, rendering the expansion |
| `Vectors.CaptionedVector` | core/src/ops_vector_ondemand.cpp:419-425 | a vector step writes the caption, if there is a caption buffer, and the displayed bmatrix, or reports BufferTooSmall |
| `CrossProduct.Component` | core/src/ops_vector_ondemand.cpp:95-104 | a computed component is exactly u_l v_r - u_r v_l for its two index pairs; the only failure is Overflow |
| `CrossProduct.WriteComponent` | core/src/ops_vector_ondemand.cpp:95-105 | component c is stored exactly when it is computed; on Overflow out is unchanged; the other components are never touched |
| `CrossProduct.CrossRaw` | core/src/ops_vector_ondemand.cpp:84-131 | Ok exactly when all three components compute, and then out holds u x v entry by entry; otherwise Overflow |
| `CrossProduct.CrossRawPartial` | core/src/ops_vector_ondemand.cpp:84-131 | on failure the components before the first that overflows are written and the later ones keep what out held |
| `CrossProduct.CrossVector` | core/src/ops_vector_ondemand.cpp:90-129 | a vector that is u x v entry by entry has the values of the cross product of u's and v's values |
| `CrossProduct.CrossOrthogonal` | core/src/ops_vector_ondemand.cpp:84-131 | x . (x cross y) = 0 and y . (x cross y) = 0 |
| `CrossProduct.CrossAnticommutes` | core/src/ops_vector_ondemand.cpp:84-131 | y cross x = -(x cross y) |
| `CrossProduct.OpCross` | core/src/ops_vector_ondemand.cpp:514-563 | u not a vector, v not a vector, a length other than 3 (InvalidDimension, each with its shapes), out shaped unlike u (DimensionMismatch) are rejected leaving out alone; otherwise out holds u x v unless a component overflows; a context is kept exactly when asked for and Ok |
| `CrossProduct.OpCrossOrthogonal` | core/src/ops_vector_ondemand.cpp:514-563 | what a successful op_cross writes is orthogonal to u and to v |
| `CrossProduct.CrossStepCount` | core/src/ops_vector_ondemand.cpp:271-274 | the cross explanation has exactly two steps |
| `CrossProduct.CrossRender` | core/src/ops_vector_ondemand.cpp:276-312 | StepOutOfRange from index 2; Internal without scratch; step 0 writes the component formula with no caption; only step 1 has a caption |
| `CrossProduct.OpCrossExplained` | core/src/ops_vector_ondemand.cpp:293-312 | the second step shows, captioned `$u\times v$`, the very vector op_cross wrote to out |
| `Projection.TermAt` | core/src/ops_vector_ondemand.cpp:154-170 | entry j of k v, of u - proj, or of u - k v, exactly, or Overflow |
| `Projection.Fill` | core/src/ops_vector_ondemand.cpp:154-170 | the loop writes entry j as the term's entry j, from i on, in order; Ok exactly when every such entry computes; entries before i never change; on Overflow each entry is either untouched or its final value |
| `Projection.Cleared` | core/src/ops_vector_ondemand.cpp:188-190 | the local result record starts with all five values zero |
| `Projection.ProjFromDots` | core/src/ops_vector_ondemand.cpp:147-176 | once both dot products are in, DivisionByZero exactly when v . v is zero; a success is the exact decomposition |
| `Projection.ProjVectors` | core/src/ops_vector_ondemand.cpp:154-176 | the two loops and the two norms: proj = k v and orth = u - proj entry by entry, with their exact squared norms, or Overflow; the dot products and k are kept |
| `Projection.ProjRaw` | core/src/ops_vector_ondemand.cpp:134-191 | a success is the exact decomposition: u . v, v . v (nonzero), k = (u . v)/(v . v), proj = k v, orth = u - proj and both squared norms |
| `Projection.ProjDivisionByZero` | core/src/ops_vector_ondemand.cpp:141-148 | DivisionByZero exactly when both dot products compute and v is the zero vector; then the outputs are untouched and the record holds u . v and 0 |
| `Projection.ProjGeometry` | core/src/ops_vector_ondemand.cpp:134-177 | a decomposition has orth orthogonal to v and to proj, u = proj + orth, and squared norms adding up to u . u |
| `Projection.OrthogonalRemainder` | core/src/ops_vector_ondemand.cpp:154-170 | u - k v with k = (u . v)/(v . v) is orthogonal to v and to k v |
| `Projection.Pythagoras` | core/src/ops_vector_ondemand.cpp:172-176 | for orthogonal proj and orth summing to u, u . u = proj . proj + orth . orth |
| `Projection.OpProj` | core/src/ops_vector_ondemand.cpp:566-633 | u not a vector, v not a vector (InvalidDimension, each with its shape), lengths that differ, proj or orth not shaped like u (DimensionMismatch) are rejected untouched; on Ok the caller's record, if any, is the exact decomposition; a context is kept exactly when asked for and Ok, and a failure with an explanation leaves the caller's record alone |
| `Projection.OpProjExplaining` | core/src/ops_vector_ondemand.cpp:590-620 | the explaining path: Ok exactly when the context is kept, holding the exact decomposition, copied to the caller's record; any failure rolls the persist arena back and leaves the record alone |
| `Projection.OpProjZeroVector` | core/src/ops_vector_ondemand.cpp:566-633 | op_proj reports DivisionByZero, with both shapes, exactly when the shapes are right, the context fits, both dot products compute and v is the zero vector |
| `Projection.ProjStepCount` | core/src/ops_vector_ondemand.cpp:330-333 | the projection explanation has exactly eight steps |
| `Projection.VectorStep` | core/src/ops_vector_ondemand.cpp:404-455 | a vector step allocates from scratch, fills the vector term by term and shows it captioned, or fails with the allocation's, the arithmetic's or the writer's error |
| `Projection.ProjRender` | core/src/ops_vector_ondemand.cpp:335-457 | StepOutOfRange from index 8; Internal without scratch; steps 0-3 write the formula, u . v, v . v and k; steps 6 and 7 the squared norms; only steps 4 and 5 have captions |
| `Projection.OpProjExplained` | core/src/ops_vector_ondemand.cpp:404-455 | steps 4 and 5 show, captioned, the very vectors op_proj wrote to out_proj and out_orth |
| `Projection.OpProjExplainedValues` | core/src/ops_vector_ondemand.cpp:598-612 | the stored record holds u . v, v . v, k = (u . v)/(v . v) and squared norms summing to u . u |
| `BasicOps.OpChar` | core/src/ops_basic_view.cpp:108-196 | op_add, op_sub and op_mul store `+`, `-` and `*` |
| `BasicOps.Kernel` | core/src/ops_basic_view.cpp:108-196 | the kernel call reports DimensionMismatch exactly when the shapes do not fit the operation; otherwise Ok or Overflow |
| `BasicOps.OpBinary` | core/src/ops_basic_view.cpp:108-196 | the kernel's error is reported with both shapes and keeps no context; after a kernel success the result is what storing the context gives; a context is kept exactly when asked for and Ok, holding a, b, the result and the operator |
| `BasicOps.BinaryStepCount` | core/src/ops_basic_view.cpp:17-20 | a binary explanation has exactly two steps |
| `BasicOps.OpSymbol` | core/src/ops_basic_view.cpp:35-48 | the formula has a symbol exactly for the three stored operators |
| `BasicOps.BinaryRender` | core/src/ops_basic_view.cpp:22-59 | StepOutOfRange from index 2; step 0 writes the formula for the stored operator (Internal for any other character); step 1 displays the result; no step has a caption |
| `BasicOps.FormulaTexts` | core/src/ops_basic_view.cpp:33-53 | the formulas are `$$C = A + B$$`, `$$C = A - B$$` and `$$C = A \cdot B$$` |
| `BasicOps.OpBinaryExplained` | core/src/ops_basic_view.cpp:108-196 | an explained op_add, op_sub or op_mul shows its own formula and then the very matrix it computed with matrix_add, matrix_sub or matrix_mul |
| `BasicOps.OpTranspose` | core/src/ops_basic_view.cpp:198-223 | an out not shaped as a's transpose is DimensionMismatch with a's shape and out untouched; otherwise out is the transpose; a context is kept exactly when asked for and Ok |
| `BasicOps.UnaryStepCount` | core/src/ops_basic_view.cpp:72-75 | a transpose explanation has exactly two steps |
| `BasicOps.UnaryRender` | core/src/ops_basic_view.cpp:77-90 | StepOutOfRange from index 2; step 0 displays A and step 1 the result |
| `BasicOps.OpTransposeExplained` | core/src/ops_basic_view.cpp:198-223 | an explained transpose shows A and then a matrix whose transpose is A |
| `Worked.DetElimFamily` | core/src/det_detail.cpp:19-102 | det_elim on [[1, 2], [c, d]] (c != 0) succeeds with determinant d - 2c: one add clears the entry below the pivot, and the report multiplies the diagonal 1 and d - 2c |
| `Worked.OpDetExamples` | core/tests/test_det.cpp:43-104 | op_det gives -2 for [[1, 2], [3, 4]] and 0 for [[1, 2], [2, 4]] |
| `Worked.RrefExample` | core/tests/test_rref.cpp:36-54 | RREF of [[1, 2], [3, 4]] records three ops (add -3 R1 to R2, scale R2 by -1/2, add -2 R2 to R1) and ends with the identity |
| `Worked.OpEchelonExample` | core/tests/test_rref.cpp:36-54 | op_echelon with RREF writes the identity to out for [[1, 2], [3, 4]] |

## Left out

- Null pointers. A null data pointer, null output slot or null writer buffer makes the code return `Internal`. Matrices, buffers and outputs are values here, so those branches cannot arise, except where the order of checks depends on an output slot; there a boolean parameter stands for it.
- Pointer layout, strides and aliasing between inputs and outputs are not modelled. Matrices are `seq<seq<Rational>>` values, and a context's matrix views are value snapshots of the matrices they point to.
- The `FeatureDisabled` stubs (core/src/ops_optional_stubs.cpp and the `#else` branches) are left out. The features are on by default, and only the enabled code is modelled.
- `CheckedWriter`, the abort-on-error writer wrapper, is left out. Only `Writer` is modelled.
- The slab allocator is left out because it wraps `malloc` / `free`. The shell UI, the debug printers in app_internal.cpp and `ExplainDetail::Compact` (nothing reads it) are left out too.
- Object lifetimes are not modelled: destructors, and the `destroy` hook of an explanation (no operation registers one). The context and vtable pair is one optional `Ctx`.
- Context sizes and alignments are the LP64 host's `sizeof` / `alignof`, written as constants. A 32-bit target would use other numbers.
- `Rationals.Add`, `Rationals.Sub`, `Rationals.Mul`, `Rationals.Div`: the success conditions stated are sufficient, not necessary. The code divides by a gcd first, so some operations whose unreduced products overflow still succeed; the exact condition is stated only for integer operands (`Rationals.IntegerAdd`, `Rationals.IntegerSub`, `Rationals.IntegerMul`).
- `Scroll.KeepCursorInView`: `visible <= 0`, which the code aborts on (app_internal.cpp:32-33 calls `fail_fast`), is excluded by the precondition `visible > 0`.
- `Echelon.EchelonCut`: stated for targets T >= 1. An observer with target 0 is never built, because every step index that replays ops is at least 1.
- `Det.DetRunBound`, `Echelon.PivotColumnBound`: the number of ops is bounded by a constant per column (COLUMN_OPS = 257, enough for fewer than 256 rows), not by the exact count.
- `Echelon.ScaleStep`: the scale factor is required to be nonzero. echelon_apply only ever scales by 1 / pivot with a nonzero pivot or by -1, and `RowOps.ApplyInjective` needs that to undo the step.
- `Worked.DetElimFamily`: the family is [[1, 2], [c, d]] with c != 0 and |c|, |d| <= 1000, which covers both 2 x 2 test matrices of test_det.cpp. A general symbolic 2 x 2 determinant is not evaluated; `Det.DetElimComplete` and `DetOps.OpDetCorrect` give its value for every input.
- `Inverse.OpInverse`: the tested inverse of [[1, 2], [3, 4]] (core/tests/test_inverse.cpp) is not evaluated to concrete entries. Following Gauss-Jordan on [A | I] through gcd-reduced int64 arithmetic, one entry at a time, costs far more than the all-inputs statement (`Inverse.InverseRunIdentity`, `Inverse.OpInverseCorrect`).
- `DetOps.OpCramerSolve`: the 4 x 4 scenario of core/tests/test_cramer.cpp is not evaluated, for the same reason; each x_i is proved to be Δ_i / Δ for every input.
- `Inverse.BuildAugmentedAsWritten`: models a build with NDEBUG, where `at_mut`'s bounds asserts (core/include/matrix_core/matrix.hpp:46-50) are compiled out. With the asserts on, n = 129 stops at entry (0, 2), because the wrapped width makes `c < cols` false there; that abort is not modelled.
- `Spaces.NonzeroRowsFirst`, `Spaces.PivotColsIncrease`, `Spaces.NullColumnsSolve`: the RREF shape of the input is a hypothesis, as in the code. `EchelonForm.RrefReduced` with `Spaces.ReducedPrefix` shows that every completed RREF run of echelon_apply meets it.
- `Spaces.NullBasis`: the basis vectors are proved to solve A x = 0 and to be independent. That they span the null space, as the header documents, is not proved.
- `Spaces.ColBasis`, `Spaces.RowBasis`, `Spaces.NullBasis`: they take the `SpaceInfo` as given, like the code. For the null basis to index safely, the info must satisfy `Spaces.Consistent`, which is a precondition; `Spaces.DescribesConsistent` shows every info space_info_from_rref reports satisfies it.
- `Inverse.OpInverse`: out is proved to be the right half of the fully reduced `[A | I]`, with the left half the identity. That A · out = I, the documented promise, is not proved.
- `DetOps.OpCramerSolve`: each x_i is proved to be Δ_i / Δ. That A x = b is not proved.
- `DetOps.OpCramerSolve`, `Minors.OpMinorMatrix`, `Minors.OpCofactorElement`: the scratch arena's fill level after the call is not modelled. Every determinant clears the arena before it starts, so the results do not depend on that level (`Minors.SubDetCleared`).
- `Spaces.RowBasis`: requires rank <= the RREF's row count. Otherwise the code reads rows past the matrix, which is undefined behaviour.
- `EchelonOps.EchelonRender`: the echelon renderer never consults its step count. An index past the last op is reported by the replay (`obs.count < index`), as the code does.
- `Projection.Fill`: on Overflow each entry from i on is stated to be either untouched or its final value. Which prefix was written is not stated.
- `Vectors.DotOf`: vectors longer than MAX_ROWS = 6 are rejected as in the code. Dot products of longer views are not modelled.
- `Explanations.RenderBeyondCount`: stated for every operation except echelon, whose renderer does not check the index against its step count.

## Findings

| source | as written | input that shows it | evidently intended | confidence | as-written member | corrected member |
|---|---|---|---|---|---|---|
| core/src/latex_view.cpp:128-131 | the augmented writer's total column count is `left.cols + right.cols` stored in a `uint8_t` | two views of 128 columns each: the header announces 256 columns, but total_cols is 0 and no entry is written | count the columns in a wider type, so every row holds left.cols + right.cols entries | not executed; views from `matrix_alloc` have at most 7 columns, so only hand-built views can reach it | `Latex.WriteAugmentedAsWritten` / `Latex.AugmentedWraps` | `Latex.WriteAugmentedInner` / `Latex.AugRowsBeside` |
| core/src/ops_inverse_ondemand.cpp:111-131 | build_augmented stores the width `2 * n` in a `uint8_t` | n = 129 with an arena that hands out 258 rationals, built with NDEBUG (the `at_mut` asserts compiled out): the width wraps to 2, and the first write past the block is row 43's identity entry (augmented column 172), at index 43 * 2 + 172 = 258; A's entry (65, 128) lands there later too. With the asserts on, `at_mut` aborts at entry (0, 2) instead. n = 128 is harmless: the width is 0 and the empty block is refused with Overflow | refuse orders whose doubled width does not fit, or hold it in a wider type | not executed; matrices from `matrix_alloc` have at most 6 rows, so only hand-built views can reach it | `Inverse.BuildAugmentedAsWritten` / `Inverse.AugmentedWrapOverruns` / `Inverse.AugmentedFirstOverrun` | `Inverse.BuildAugmented` / `Inverse.AugmentedHalves` |
