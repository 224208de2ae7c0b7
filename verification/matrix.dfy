/**
 * Matrices of canonical rationals (matrix.hpp, matrix_view.cpp, config.hpp).
 *
 * A view's pointer/stride layout is abstracted to a row-major sequence of
 * rows. Operations that write into a caller's `out` view take that view as
 * an argument and return its new contents together with the error code, so
 * the entries written before a failing entry stay visible, as in the source.
 */
module Matrices {

  import opened Errors
  import opened Int64
  import opened Rationals
  import opened Arenas

  const MAX_ROWS: nat := 6
  const MAX_COLS: nat := 7

  /** sizeof(Rational) and alignof(Rational): two int64 fields. */
  const RATIONAL_SIZE: nat := 16
  const RATIONAL_ALIGN: nat := 8

  datatype Matrix = Matrix(rows: nat, cols: nat, cells: seq<seq<Rational>>)
  {
    /** uint8 dimensions, a rows x cols grid, canonical entries. */
    predicate Wf() {
      rows < 256 && cols < 256 && |cells| == rows &&
      (forall r :: 0 <= r < rows ==> |cells[r]| == cols) &&
      (forall r, c :: 0 <= r < rows && 0 <= c < cols ==> cells[r][c].Valid())
    }

    function Dim(): Errors.Dim { Errors.Dim(rows, cols) }

    function At(r: nat, c: nat): Rational
      requires Wf() && r < rows && c < cols
    {
      cells[r][c]
    }

    /** The mathematical entry. */
    ghost function V(r: nat, c: nat): real
      requires Wf() && r < rows && c < cols
    {
      cells[r][c].Val()
    }

    function Set(r: nat, c: nat, v: Rational): (m: Matrix)
      requires Wf() && r < rows && c < cols && v.Valid()
      ensures m.Wf() && m.rows == rows && m.cols == cols
      ensures m.cells[r][c] == v
      ensures forall i, j :: 0 <= i < rows && 0 <= j < cols && (i != r || j != c) ==>
                m.cells[i][j] == cells[i][j]
    {
      Matrix(rows, cols, cells[r := cells[r][c := v]])
    }
  }

  predicate SameDim(a: Matrix, b: Matrix) { a.rows == b.rows && a.cols == b.cols }

  /** valid_dim: 1..6 rows and 1..7 columns. */
  predicate ValidDim(rows: nat, cols: nat) {
    1 <= rows <= MAX_ROWS && 1 <= cols <= MAX_COLS
  }

  /** The rows x cols matrix of zeros. */
  function Zeros(rows: nat, cols: nat): (m: Matrix)
    requires rows < 256 && cols < 256
    ensures m.Wf() && m.rows == rows && m.cols == cols
    ensures forall r, c :: 0 <= r < rows && 0 <= c < cols ==> m.cells[r][c] == Zero
  {
    CoprimeOneZero();
    Matrix(rows, cols, seq(rows, _ => seq(cols, _ => Zero)))
  }

  lemma CoprimeOneZero()
    ensures Zero.Valid() && One.Valid()
  {
    NumberTheory.CoprimeOne(0);
    NumberTheory.CoprimeOne(1);
  }

  /** A matrix allocated from an arena, with the arena after the allocation. */
  datatype Allocated = Allocated(m: Matrix, arena: Arena)

  /**
   * matrix_alloc: Internal for a null out pointer, then InvalidDimension,
   * then Overflow when the arena cannot supply rows*cols rationals; on success
   * an all-zero matrix (stride == cols).
   */
  function Alloc(arena: Arena, rows: nat, cols: nat, outIsNull: bool): (r: Result<Allocated>)
    requires arena.Valid() && rows < 256 && cols < 256
    ensures r.Failure? ==> r.code in {Internal, InvalidDimension, Overflow}
    ensures r.Failure? && r.code == Internal <==> outIsNull
    ensures r.Failure? && r.code == InvalidDimension <==> !outIsNull && !ValidDim(rows, cols)
    ensures r.Success? ==> r.value.m == Zeros(rows, cols) && r.value.arena.Valid()
    ensures r.Success? ==> arena.used <= r.value.arena.used ||
                           arena.base + arena.cap + RATIONAL_ALIGN > WORD
    ensures r.Failure? && r.code == Overflow ==> Allocate(arena, RATIONAL_SIZE * rows * cols, RATIONAL_ALIGN).None?
  {
    if outIsNull then Failure(Internal)
    else if !ValidDim(rows, cols) then Failure(InvalidDimension)
    else
      assert IsPow2(RATIONAL_ALIGN);
      match Allocate(arena, RATIONAL_SIZE * rows * cols, RATIONAL_ALIGN)
      case None => Failure(Overflow)
      case Some(block) =>
        AllocateGrows(arena, RATIONAL_SIZE * rows * cols, RATIONAL_ALIGN);
        Success(Allocated(Zeros(rows, cols), block.arena))
  }

  /** matrix_copy: DimensionMismatch unless the shapes agree; then dst becomes src. */
  function Copy(src: Matrix, dst: Matrix): (r: Result<Matrix>)
    requires src.Wf() && dst.Wf()
    ensures r.Failure? <==> !SameDim(src, dst)
    ensures r.Failure? ==> r.code == DimensionMismatch
    ensures r.Success? ==> r.value == src
  {
    if src.rows != dst.rows || src.cols != dst.cols then Failure(DimensionMismatch)
    else Success(CopyFrom(src, dst, 0))
  }

  /** The row loop of matrix_copy: rows before `row` are already copied. */
  function CopyFrom(src: Matrix, dst: Matrix, row: nat): (m: Matrix)
    requires src.Wf() && dst.Wf() && SameDim(src, dst) && row <= src.rows
    requires forall i :: 0 <= i < row ==> dst.cells[i] == src.cells[i]
    ensures m == src
    decreases src.rows - row
  {
    if row == src.rows then
      assert dst.cells == src.cells;
      dst
    else
      CopyFrom(src, dst.(cells := dst.cells[row := src.cells[row]]), row + 1)
  }

  /** matrix_clone: a fresh matrix from the arena holding a copy of src. */
  function Clone(arena: Arena, src: Matrix): (r: Result<Allocated>)
    requires arena.Valid() && src.Wf()
    ensures r.Failure? ==> r.code in {InvalidDimension, Overflow}
    ensures r.Failure? && r.code == InvalidDimension <==> !ValidDim(src.rows, src.cols)
    ensures r.Success? ==> r.value.m == src && r.value.arena.Valid()
  {
    match Alloc(arena, src.rows, src.cols, false)
    case Failure(e) => Failure(e)
    case Success(a) => Success(Allocated(CopyFrom(src, a.m, 0), a.arena))
  }

  /** matrix_fill_zero */
  function FillZero(m: Matrix): (r: Matrix)
    requires m.Wf()
    ensures r == Zeros(m.rows, m.cols)
  {
    Zeros(m.rows, m.cols)
  }

  // ---------------------------------------------------------------------
  // Entrywise arithmetic with the source's row-major early exit
  // ---------------------------------------------------------------------

  datatype EntryOp = AddEntries | SubEntries | MulEntries

  /** The matrix an operation writes into `out`, and the code it returned. */
  datatype Written = Written(m: Matrix, ec: ErrorCode)

  /** The shape conditions of matrix_add / matrix_sub / matrix_mul on a, b and out. */
  predicate Shapes(op: EntryOp, a: Matrix, b: Matrix, out: Matrix) {
    match op
    case MulEntries => a.cols == b.rows && out.rows == a.rows && out.cols == b.cols
    case _ => SameDim(a, b) && SameDim(out, a)
  }

  /** Entry (i, j) of the result, as the source computes it. */
  function Entry(op: EntryOp, a: Matrix, b: Matrix, i: nat, j: nat): (r: Result<Rational>)
    requires a.Wf() && b.Wf()
    requires op == MulEntries ==> a.cols == b.rows && i < a.rows && j < b.cols
    requires op != MulEntries ==> SameDim(a, b) && i < a.rows && j < a.cols
    ensures r.Failure? ==> r.code == Overflow
    ensures r.Success? ==> r.value.Valid()
    ensures r.Success? && op == AddEntries ==> r.value.Val() == a.V(i, j) + b.V(i, j)
    ensures r.Success? && op == SubEntries ==> r.value.Val() == a.V(i, j) - b.V(i, j)
    ensures r.Success? && op == MulEntries ==> r.value.Val() == RowCol(a, b, i, j, 0)
  {
    match op
    case AddEntries => Add(a.cells[i][j], b.cells[i][j])
    case SubEntries => Sub(a.cells[i][j], b.cells[i][j])
    case MulEntries =>
      CoprimeOneZero();
      QDef(0, 1);
      DotFrom(a, b, i, j, 0, Zero)
  }

  /** sum over t >= k of a[i][t] * b[t][j]. */
  ghost function RowCol(a: Matrix, b: Matrix, i: nat, j: nat, k: nat): real
    requires a.Wf() && b.Wf() && a.cols == b.rows && i < a.rows && j < b.cols && k <= a.cols
    decreases a.cols - k
  {
    if k == a.cols then 0.0 else a.V(i, k) * b.V(k, j) + RowCol(a, b, i, j, k + 1)
  }

  /**
   * The inner k-loop of matrix_mul: sum := sum + a[i][k] * b[k][j], failing
   * on the first overflowing product or partial sum.
   */
  function DotFrom(a: Matrix, b: Matrix, i: nat, j: nat, k: nat, sum: Rational): (r: Result<Rational>)
    requires a.Wf() && b.Wf() && a.cols == b.rows && i < a.rows && j < b.cols && k <= a.cols
    requires sum.Valid()
    ensures r.Failure? ==> r.code == Overflow
    ensures r.Success? ==> r.value.Valid() && r.value.Val() == sum.Val() + RowCol(a, b, i, j, k)
    decreases a.cols - k
  {
    if k == a.cols then Success(sum)
    else
      var prod :- Mul(a.cells[i][k], b.cells[k][j]);
      var next :- Add(sum, prod);
      DotFrom(a, b, i, j, k + 1, next)
  }

  /**
   * The inner loop of matrix_add / matrix_sub / matrix_mul over row r from
   * column c on: each entry is computed and stored, and the first error is
   * returned with the entries before it already written.
   */
  function FillRow(op: EntryOp, a: Matrix, b: Matrix, out: Matrix, r: nat, c: nat): (w: Written)
    requires a.Wf() && b.Wf() && out.Wf() && Shapes(op, a, b, out)
    requires r < out.rows && c <= out.cols
    ensures w.m.Wf() && SameDim(w.m, out)
    ensures w.ec == Ok || w.ec == Overflow
    ensures w.ec == Ok <==> forall j :: c <= j < out.cols ==> Entry(op, a, b, r, j).Success?
    ensures w.ec == Ok ==> forall j :: c <= j < out.cols ==> w.m.cells[r][j] == Entry(op, a, b, r, j).value
    ensures forall j :: 0 <= j < out.cols ==>
              w.m.cells[r][j] == out.cells[r][j] ||
              (Entry(op, a, b, r, j).Success? && w.m.cells[r][j] == Entry(op, a, b, r, j).value)
    ensures forall j :: 0 <= j < c ==> w.m.cells[r][j] == out.cells[r][j]
    ensures forall i :: 0 <= i < out.rows && i != r ==> w.m.cells[i] == out.cells[i]
    decreases out.cols - c
  {
    if c == out.cols then Written(out, Ok)
    else
      match Entry(op, a, b, r, c)
      case Failure(e) => Written(out, e)
      case Success(v) => FillRow(op, a, b, out.Set(r, c, v), r, c + 1)
  }

  /** The outer loop of matrix_add / matrix_sub / matrix_mul from row r on. */
  function FillFrom(op: EntryOp, a: Matrix, b: Matrix, out: Matrix, r: nat): (w: Written)
    requires a.Wf() && b.Wf() && out.Wf() && Shapes(op, a, b, out)
    requires r <= out.rows
    ensures w.m.Wf() && SameDim(w.m, out)
    ensures w.ec == Ok || w.ec == Overflow
    ensures w.ec == Ok <==> forall i, j :: r <= i < out.rows && 0 <= j < out.cols ==>
                              Entry(op, a, b, i, j).Success?
    ensures w.ec == Ok ==> forall i, j :: r <= i < out.rows && 0 <= j < out.cols ==>
                             w.m.cells[i][j] == Entry(op, a, b, i, j).value
    ensures forall i, j :: 0 <= i < out.rows && 0 <= j < out.cols ==>
              w.m.cells[i][j] == out.cells[i][j] ||
              (Entry(op, a, b, i, j).Success? && w.m.cells[i][j] == Entry(op, a, b, i, j).value)
    ensures forall i :: 0 <= i < r ==> w.m.cells[i] == out.cells[i]
    decreases out.rows - r
  {
    if r == out.rows then Written(out, Ok)
    else
      var row := FillRow(op, a, b, out, r, 0);
      if row.ec != Ok then row
      else FillFrom(op, a, b, row.m, r + 1)
  }

  /** Shared shape checks and loop of matrix_add, matrix_sub and matrix_mul. */
  function Entrywise(op: EntryOp, a: Matrix, b: Matrix, out: Matrix): (w: Written)
    requires a.Wf() && b.Wf() && out.Wf()
    ensures w.ec == DimensionMismatch <==> !Shapes(op, a, b, out)
    ensures w.ec == DimensionMismatch ==> w.m == out
    ensures w.ec == Ok || w.ec == Overflow || w.ec == DimensionMismatch
    ensures w.m.Wf() && SameDim(w.m, out)
    ensures w.ec == Ok ==> forall i, j :: 0 <= i < out.rows && 0 <= j < out.cols ==>
                             Entry(op, a, b, i, j).Success? && w.m.cells[i][j] == Entry(op, a, b, i, j).value
    ensures Shapes(op, a, b, out) ==>
              (w.ec == Ok <==> forall i, j :: 0 <= i < out.rows && 0 <= j < out.cols ==>
                                 Entry(op, a, b, i, j).Success?)
  {
    var shapesOk := match op
      case MulEntries => a.cols == b.rows && out.rows == a.rows && out.cols == b.cols
      case _ => a.rows == b.rows && a.cols == b.cols && out.rows == a.rows && out.cols == a.cols;
    if !shapesOk then Written(out, DimensionMismatch)
    else FillFrom(op, a, b, out, 0)
  }

  /** matrix_add: out[r][c] = a[r][c] + b[r][c]. */
  function MatrixAdd(a: Matrix, b: Matrix, out: Matrix): (w: Written)
    requires a.Wf() && b.Wf() && out.Wf()
    ensures w.ec == DimensionMismatch <==> !(SameDim(a, b) && SameDim(out, a))
    ensures w.ec == Ok || w.ec == Overflow || w.ec == DimensionMismatch
    ensures w.ec == Ok ==> w.m.Wf() && SameDim(w.m, a) &&
                           (forall i, j :: 0 <= i < a.rows && 0 <= j < a.cols ==>
                              w.m.cells[i][j].Valid() && w.m.V(i, j) == a.V(i, j) + b.V(i, j))
  {
    Entrywise(AddEntries, a, b, out)
  }

  /** matrix_sub: out[r][c] = a[r][c] - b[r][c]. */
  function MatrixSub(a: Matrix, b: Matrix, out: Matrix): (w: Written)
    requires a.Wf() && b.Wf() && out.Wf()
    ensures w.ec == DimensionMismatch <==> !(SameDim(a, b) && SameDim(out, a))
    ensures w.ec == Ok || w.ec == Overflow || w.ec == DimensionMismatch
    ensures w.ec == Ok ==> w.m.Wf() && SameDim(w.m, a) &&
                           (forall i, j :: 0 <= i < a.rows && 0 <= j < a.cols ==>
                              w.m.cells[i][j].Valid() && w.m.V(i, j) == a.V(i, j) - b.V(i, j))
  {
    Entrywise(SubEntries, a, b, out)
  }

  /** matrix_mul: out[i][j] = sum over k of a[i][k] * b[k][j]. */
  function MatrixMul(a: Matrix, b: Matrix, out: Matrix): (w: Written)
    requires a.Wf() && b.Wf() && out.Wf()
    ensures w.ec == DimensionMismatch <==> !(a.cols == b.rows && out.rows == a.rows && out.cols == b.cols)
    ensures w.ec == Ok || w.ec == Overflow || w.ec == DimensionMismatch
    ensures w.ec == Ok ==> w.m.Wf() && w.m.rows == a.rows && w.m.cols == b.cols &&
                           (forall i, j :: 0 <= i < a.rows && 0 <= j < b.cols ==>
                              w.m.cells[i][j].Valid() && w.m.V(i, j) == RowCol(a, b, i, j, 0))
  {
    Entrywise(MulEntries, a, b, out)
  }

  /** The transpose of a, as a value. */
  function Transposed(a: Matrix): (t: Matrix)
    requires a.Wf()
    ensures t.Wf() && t.rows == a.cols && t.cols == a.rows
    ensures forall r, c :: 0 <= r < a.rows && 0 <= c < a.cols ==> t.cells[c][r] == a.cells[r][c]
  {
    Matrix(a.cols, a.rows, seq(a.cols, c requires 0 <= c < a.cols =>
                                 seq(a.rows, r requires 0 <= r < a.rows => a.cells[r][c])))
  }

  /** matrix_transpose: out must be cols x rows; every entry of out is written. */
  function MatrixTranspose(a: Matrix, out: Matrix): (w: Written)
    requires a.Wf() && out.Wf()
    ensures w.ec == Ok || w.ec == DimensionMismatch
    ensures w.ec == DimensionMismatch <==> !(out.rows == a.cols && out.cols == a.rows)
    ensures w.ec == DimensionMismatch ==> w.m == out
    ensures w.ec == Ok ==> w.m == Transposed(a)
  {
    if out.rows != a.cols || out.cols != a.rows then Written(out, DimensionMismatch)
    else Written(Transposed(a), Ok)
  }

  /** Transposing twice gives back the matrix. */
  lemma TransposeInvolution(a: Matrix)
    requires a.Wf()
    ensures Transposed(Transposed(a)) == a
  {
    var t := Transposed(Transposed(a));
    assert forall r :: 0 <= r < a.rows ==> t.cells[r] == a.cells[r];
  }
}
