/**
 * Minors and cofactors: build_submatrix, the matrix of minors
 * (ops_minor_matrix.cpp) and a single cofactor with its on-demand
 * explanation (ops_cofactor_element_ondemand.cpp).
 */
module Minors {

  import opened Errors
  import opened Rationals
  import opened Matrices
  import opened RowOps
  import opened Arenas
  import opened Writers
  import opened Explaining
  import Det
  import DetOps
  import Latex

  // ---------------------------------------------------------------------
  // build_submatrix
  // ---------------------------------------------------------------------

  /** The index in the full matrix of index k once index d is deleted. */
  function Skip(k: nat, d: nat): nat
  {
    if k < d then k else k + 1
  }

  /** The column loop of build_submatrix: the entries of `row` from col on, column delC left out. */
  function RowWithout(row: seq<Rational>, delC: nat, col: nat): (r: seq<Rational>)
    requires col <= |row|
    ensures col <= delC < |row| ==> r == row[col..delC] + row[delC + 1..]
    ensures !(col <= delC < |row|) ==> r == row[col..]
    decreases |row| - col
  {
    if col == |row| then []
    else if col == delC then RowWithout(row, delC, col + 1)
    else
      var rest := RowWithout(row, delC, col + 1);
      assert [row[col]] + row[col + 1..] == row[col..];
      assert col < delC < |row| ==> [row[col]] + row[col + 1..delC] == row[col..delC];
      [row[col]] + rest
  }

  /** Entry j of a row without column delC. */
  lemma RowWithoutAt(row: seq<Rational>, delC: nat, j: nat)
    requires delC < |row| && j < |row| - 1
    ensures |RowWithout(row, delC, 0)| == |row| - 1
    ensures RowWithout(row, delC, 0)[j] == row[Skip(j, delC)]
  {
    var r := RowWithout(row, delC, 0);
    assert r == row[0..delC] + row[delC + 1..];
  }

  /** Where row k of the rows from `row` on comes from once row d is deleted. */
  function Src(row: nat, k: nat, d: nat): nat
  {
    if row <= d <= row + k then row + k + 1 else row + k
  }

  /** The row loop of build_submatrix: the rows from `row` on, row delR left out, each without column delC. */
  function RowsWithout(cells: seq<seq<Rational>>, delR: nat, delC: nat, row: nat): (r: seq<seq<Rational>>)
    requires row <= |cells|
    ensures |r| == |cells| - row - (if row <= delR < |cells| then 1 else 0)
    ensures forall k :: 0 <= k < |r| ==> Src(row, k, delR) < |cells| && r[k] == RowWithout(cells[Src(row, k, delR)], delC, 0)
    decreases |cells| - row
  {
    if row == |cells| then []
    else if row == delR then RowsWithout(cells, delR, delC, row + 1)
    else [RowWithout(cells[row], delC, 0)] + RowsWithout(cells, delR, delC, row + 1)
  }

  /** A with row delR and column delC deleted, the other entries in order. */
  function Submatrix(a: Matrix, delR: nat, delC: nat): (m: Matrix)
    requires a.Wf() && 2 <= a.rows && delR < a.rows && delC < a.cols
    ensures m.Wf() && m.rows == a.rows - 1 && m.cols == a.cols - 1
    ensures forall i, j :: 0 <= i < m.rows && 0 <= j < m.cols ==>
              m.cells[i][j] == a.cells[Skip(i, delR)][Skip(j, delC)]
  {
    var cells := RowsWithout(a.cells, delR, delC, 0);
    forall i, j | 0 <= i < a.rows - 1 && 0 <= j < a.cols - 1
      ensures |cells[i]| == a.cols - 1 && cells[i][j] == a.cells[Skip(i, delR)][Skip(j, delC)]
    {
      assert Src(0, i, delR) == Skip(i, delR);
      RowWithoutAt(a.cells[Skip(i, delR)], delC, j);
    }
    Matrix(a.rows - 1, a.cols - 1, cells)
  }

  /**
   * build_submatrix: NotSquare, InvalidDimension for n <= 1,
   * IndexOutOfRange unless both indices are below n, then the (n-1) x (n-1)
   * allocation (its error), then the copy.
   */
  function BuildSubmatrix(arena: Arena, a: Matrix, delR: nat, delC: nat): (r: Result<Allocated>)
    requires arena.Valid() && a.Wf()
    ensures a.rows != a.cols ==> r == Failure(NotSquare)
    ensures a.rows == a.cols && a.rows <= 1 ==> r == Failure(InvalidDimension)
    ensures a.rows == a.cols && a.rows > 1 && (delR >= a.rows || delC >= a.cols) ==> r == Failure(IndexOutOfRange)
    ensures r.Failure? ==> r.code in {NotSquare, InvalidDimension, IndexOutOfRange, Overflow}
    ensures r.Success? ==> a.rows == a.cols && 2 <= a.rows && delR < a.rows && delC < a.cols &&
                           r.value.m == Submatrix(a, delR, delC) && r.value.arena.Valid()
  {
    if a.rows != a.cols then Failure(NotSquare)
    else if a.rows <= 1 then Failure(InvalidDimension)
    else if delR >= a.rows || delC >= a.cols then Failure(IndexOutOfRange)
    else
      match Alloc(arena, a.rows - 1, a.cols - 1, false)
      case Failure(e) => Failure(e)
      case Success(s) => Success(Allocated(Submatrix(a, delR, delC), s.arena))
  }

  // ---------------------------------------------------------------------
  // The matrix of minors
  // ---------------------------------------------------------------------

  /**
   * One element of op_minor_matrix: clear the scratch arena, build the
   * submatrix without row i and column j, and take its determinant. The
   * body (SubDetBody) is reached through a recursion on a depth the solver
   * cannot see through, so that the element loop reasons from this contract.
   */
  function SubDet(scratch: Arena, a: Matrix, i: nat, j: nat): (r: Result<Rational>)
    requires scratch.Valid() && a.Wf()
    ensures r.Failure? ==> r.code in {NotSquare, InvalidDimension, IndexOutOfRange, Overflow}
    ensures r.Success? ==> r.value.Valid()
  {
    SubDetAt(scratch, a, i, j, a.rows + 1)
  }

  function SubDetAt(scratch: Arena, a: Matrix, i: nat, j: nat, depth: nat): (r: Result<Rational>)
    requires scratch.Valid() && a.Wf()
    ensures r.Failure? ==> r.code in {NotSquare, InvalidDimension, IndexOutOfRange, Overflow}
    ensures r.Success? ==> r.value.Valid()
    decreases depth
  {
    if depth > 0 then SubDetAt(scratch, a, i, j, depth - 1) else SubDetBody(scratch, a, i, j)
  }

  function SubDetBody(scratch: Arena, a: Matrix, i: nat, j: nat): (r: Result<Rational>)
    requires scratch.Valid() && a.Wf()
    ensures r.Failure? ==> r.code in {NotSquare, InvalidDimension, IndexOutOfRange, Overflow}
    ensures r.Success? ==> r.value.Valid()
  {
    match BuildSubmatrix(EnterScratch(scratch), a, i, j)
    case Failure(e) => Failure(e)
    case Success(sub) =>
      var d := Det.DetElim(sub.m, NO_TARGET);
      if d.ec != Ok then Failure(d.ec) else Success(d.det.value)
  }

  lemma {:induction false} SubDetDef(scratch: Arena, a: Matrix, i: nat, j: nat, depth: nat)
    requires scratch.Valid() && a.Wf()
    ensures SubDetAt(scratch, a, i, j, depth) == SubDetBody(scratch, a, i, j)
    decreases depth
  {
    if depth > 0 {
      SubDetDef(scratch, a, i, j, depth - 1);
    }
  }

  /** The element clears the scratch arena first, so clearing it beforehand changes nothing. */
  lemma SubDetCleared(scratch: Arena, a: Matrix, i: nat, j: nat)
    requires scratch.Valid() && a.Wf()
    ensures SubDet(EnterScratch(scratch), a, i, j) == SubDet(scratch, a, i, j)
  {
    SubDetDef(EnterScratch(scratch), a, i, j, a.rows + 1);
    SubDetDef(scratch, a, i, j, a.rows + 1);
    assert EnterScratch(EnterScratch(scratch)) == EnterScratch(scratch);
  }

  /**
   * Each minor is the determinant of A with row i and column j deleted, as
   * op_det computes it from the same scratch arena: the same value, and
   * the same failure.
   */
  lemma SubDetIsDet(scratch: Arena, a: Matrix, i: nat, j: nat)
    requires scratch.Valid() && a.Wf() && a.rows == a.cols && 2 <= a.rows && i < a.rows && j < a.cols
    ensures var sub := Submatrix(a, i, j);
            var r := DetOps.OpDet(sub, scratch, NoExplain);
            (SubDet(scratch, a, i, j).Success? <==> r.err.code == Ok) &&
            (SubDet(scratch, a, i, j).Success? ==> r.value == Some(SubDet(scratch, a, i, j).value))
  {
    SubDetIsDetOf(scratch, a, i, j);
    DetOps.DetOfIsOpDet(scratch, Submatrix(a, i, j));
  }

  /** A minor is det_of of the submatrix, from the same scratch arena. */
  lemma SubDetIsDetOf(scratch: Arena, a: Matrix, i: nat, j: nat)
    requires scratch.Valid() && a.Wf() && a.rows == a.cols && 2 <= a.rows && i < a.rows && j < a.cols
    ensures SubDet(scratch, a, i, j) == DetOps.DetOf(scratch, Submatrix(a, i, j))
  {
    SubDetDef(scratch, a, i, j, a.rows + 1);
    SubmatrixCloned(EnterScratch(scratch), a, i, j);
  }

  /** Building the submatrix and cloning it allocate alike: the same failure, or the same matrix. */
  lemma SubmatrixCloned(arena: Arena, a: Matrix, i: nat, j: nat)
    requires arena.Valid() && a.Wf() && a.rows == a.cols && 2 <= a.rows && i < a.rows && j < a.cols
    ensures var built := BuildSubmatrix(arena, a, i, j);
            var cloned := Clone(arena, Submatrix(a, i, j));
            (built.Success? <==> cloned.Success?) &&
            (built.Failure? ==> built.code == cloned.code) &&
            (built.Success? ==> built.value.m == cloned.value.m)
  {
    var sub := Submatrix(a, i, j);
    assert sub.rows == a.rows - 1 && sub.cols == a.cols - 1;
  }

  /** (p, q) comes before (i, j) in row-major order. */
  predicate Before(p: nat, q: nat, i: nat, j: nat) {
    p < i || (p == i && q < j)
  }

  /** Entry (p, q) of out holds the minor of A at (p, q). */
  predicate HoldsMinor(scratch: Arena, a: Matrix, out: Matrix, p: nat, q: nat)
    requires scratch.Valid() && a.Wf() && out.Wf() && p < out.rows && q < out.cols
  {
    SubDet(scratch, a, p, q) == Success(out.cells[p][q])
  }

  /** What op_minor_matrix leaves: the error and out, entries written so far included. */
  datatype MinorOut = MinorOut(err: Error, out: Matrix)

  /**
   * The element loop of op_minor_matrix from (i, j) on, in row-major order:
   * each minor is written as soon as it is known; the first failure ends
   * the loop, reporting A's shape and the element's (i, j).
   */
  function MinorFrom(scratch: Arena, a: Matrix, out: Matrix, i: nat, j: nat): (r: MinorOut)
    requires scratch.Valid() && a.Wf() && a.rows == a.cols && 2 <= a.rows
    requires out.Wf() && SameDim(out, a) && i <= a.rows && j < a.cols && (i == a.rows ==> j == 0)
    ensures r.out.Wf() && SameDim(r.out, out)
    ensures forall p, q :: 0 <= p < a.rows && 0 <= q < a.cols && Before(p, q, i, j) ==>
              r.out.cells[p][q] == out.cells[p][q]
    ensures r.err.code == Ok ==> r.err == NoError
    ensures r.err.code == Ok ==>
              forall p, q :: 0 <= p < a.rows && 0 <= q < a.cols && !Before(p, q, i, j) ==>
                HoldsMinor(scratch, a, r.out, p, q)
    ensures r.err.code != Ok ==>
              r.err.a == a.Dim() && r.err.b == NoDim && r.err.i < a.rows && r.err.j < a.cols &&
              !Before(r.err.i, r.err.j, i, j) &&
              SubDet(scratch, a, r.err.i, r.err.j) == Failure(r.err.code) &&
              (forall p, q :: 0 <= p < a.rows && 0 <= q < a.cols && !Before(p, q, i, j) && Before(p, q, r.err.i, r.err.j) ==>
                 HoldsMinor(scratch, a, r.out, p, q)) &&
              (forall p, q :: 0 <= p < a.rows && 0 <= q < a.cols && !Before(p, q, r.err.i, r.err.j) ==>
                 r.out.cells[p][q] == out.cells[p][q])
    decreases a.rows - i, a.cols - j
  {
    if i == a.rows then MinorOut(NoError, out)
    else
      match SubDet(scratch, a, i, j)
      case Failure(e) => MinorOut(Error(e, a.Dim(), NoDim, i, j), out)
      case Success(d) =>
        var out' := out.Set(i, j, d);
        assert HoldsMinor(scratch, a, out', i, j);
        if j + 1 < a.cols then MinorFrom(scratch, a, out', i, j + 1)
        else MinorFrom(scratch, a, out', i + 1, 0)
  }

  /**
   * op_minor_matrix: NotSquare, then InvalidDimension (n <= 1), then
   * DimensionMismatch unless out is n x n; then out[i][j] receives the
   * determinant of A without row i and column j, unsigned, element by
   * element in row-major order.
   */
  function OpMinorMatrix(a: Matrix, scratch: Arena, out: Matrix): (r: MinorOut)
    requires a.Wf() && out.Wf() && scratch.Valid()
    ensures a.rows != a.cols ==> r == MinorOut(ErrA(NotSquare, a.Dim()), out)
    ensures a.rows == a.cols && a.rows <= 1 ==> r == MinorOut(ErrA(InvalidDimension, a.Dim()), out)
    ensures a.rows == a.cols && a.rows > 1 && !SameDim(out, a) ==>
              r == MinorOut(ErrAB(DimensionMismatch, a.Dim(), out.Dim()), out)
    ensures r.out.Wf() && SameDim(r.out, out)
    ensures r.err.code == Ok ==> forall p, q :: 0 <= p < a.rows && 0 <= q < a.cols ==> HoldsMinor(scratch, a, r.out, p, q)
  {
    if a.rows != a.cols then MinorOut(ErrA(NotSquare, a.Dim()), out)
    else if a.rows <= 1 then MinorOut(ErrA(InvalidDimension, a.Dim()), out)
    else if out.rows != a.rows || out.cols != a.cols then MinorOut(ErrAB(DimensionMismatch, a.Dim(), out.Dim()), out)
    else MinorFrom(scratch, a, out, 0, 0)
  }

  /**
   * A failing element of op_minor_matrix: the error names the first (i, j)
   * in row-major order whose minor fails, with that minor's error; every
   * earlier entry holds its minor and the rest of out is untouched.
   */
  lemma MinorMatrixFails(a: Matrix, scratch: Arena, out: Matrix)
    requires a.Wf() && out.Wf() && scratch.Valid() && a.rows == a.cols && a.rows > 1 && SameDim(out, a)
    ensures var r := OpMinorMatrix(a, scratch, out);
            r.err.code != Ok ==>
              r.err.a == a.Dim() && r.err.i < a.rows && r.err.j < a.cols &&
              SubDet(scratch, a, r.err.i, r.err.j) == Failure(r.err.code) &&
              (forall p, q :: 0 <= p < a.rows && 0 <= q < a.cols && Before(p, q, r.err.i, r.err.j) ==>
                 HoldsMinor(scratch, a, r.out, p, q)) &&
              (forall p, q :: 0 <= p < a.rows && 0 <= q < a.cols && !Before(p, q, r.err.i, r.err.j) ==>
                 r.out.cells[p][q] == out.cells[p][q])
  {
  }

  // ---------------------------------------------------------------------
  // A single cofactor
  // ---------------------------------------------------------------------

  /** CofactorElementCtx: A, the position, the minor, the cofactor and the op count. */
  datatype CofactorCtx = CofactorCtx(a: Matrix, row: nat, col: nat, minor: Rational, cofactor: Rational, opCount: nat)

  /** sizeof and alignof of CofactorElementCtx on an LP64 host: a view, two uint8 padded to 8, two rationals, a size_t. */
  const COFACTOR_CTX_SIZE: nat := 64
  const COFACTOR_CTX_ALIGN: nat := 8

  /**
   * (-1)^(i+j) applied to the minor: rational_neg when i + j is odd. The
   * body is reached through a recursion on a depth the solver cannot see
   * through, so that callers reason from this contract.
   */
  function Signed(minor: Rational, i: nat, j: nat): (r: Result<Rational>)
    requires minor.Valid()
    ensures r.Failure? <==> (i + j) % 2 == 1 && minor.num == Int64.MIN
    ensures r.Failure? ==> r.code == Overflow
    ensures r.Success? ==> (r.value.Valid() &&
              r.value.Val() == (if (i + j) % 2 == 0 then minor.Val() else -minor.Val()))
  {
    SignedAt(minor, i, j, i + j + 1)
  }

  function SignedAt(minor: Rational, i: nat, j: nat, depth: nat): (r: Result<Rational>)
    requires minor.Valid()
    ensures r.Failure? <==> (i + j) % 2 == 1 && minor.num == Int64.MIN
    ensures r.Failure? ==> r.code == Overflow
    ensures r.Success? ==> (r.value.Valid() &&
              r.value.Val() == (if (i + j) % 2 == 0 then minor.Val() else -minor.Val()))
    decreases depth
  {
    if depth > 0 then SignedAt(minor, i, j, depth - 1)
    else if (i + j) % 2 != 0 then Neg(minor) else Success(minor)
  }

  lemma {:induction false} SignedDef(minor: Rational, i: nat, j: nat, depth: nat)
    requires minor.Valid()
    ensures SignedAt(minor, i, j, depth) == if (i + j) % 2 != 0 then Neg(minor) else Success(minor)
    decreases depth
  {
    if depth > 0 {
      SignedDef(minor, i, j, depth - 1);
    }
  }

  /**
   * op_cofactor_element: NotSquare, then IndexOutOfRange with i and j
   * unless both are below n; the scratch arena is cleared; a 1 x 1 A has
   * minor 1 and no ops; otherwise the minor is det_elim of the submatrix
   * (its errors, and the submatrix's, reported with A's shape); the sign is
   * applied; *out receives the cofactor, and the explanation, if asked
   * for, is stored.
   */
  function OpCofactorElement(a: Matrix, i: nat, j: nat, scratch: Arena, opts: Options): (r: DetOps.DetResult<CofactorCtx>)
    requires a.Wf() && i < 256 && j < 256 && scratch.Valid() && OptionsValid(opts)
    ensures a.rows != a.cols ==> r.err == ErrA(NotSquare, a.Dim()) && r.value.None?
    ensures a.rows == a.cols && (i >= a.rows || j >= a.cols) ==>
              r.err == Error(IndexOutOfRange, a.Dim(), NoDim, i, j) && r.value.None?
    ensures r.err.code in {Ok, NotSquare, IndexOutOfRange, InvalidDimension, Overflow, Internal}
    ensures r.err.code in {Ok, Internal} ==> r.value.Some?
    ensures r.value.Some? ==> r.value.value.Valid()
    // C_{1,1} of a 1 x 1 matrix is 1
    ensures a.rows == a.cols == 1 && i == 0 && j == 0 ==> r.value == Some(One)
    ensures r.err.code == Ok ==> (r.ctx.Some? <==> opts.enable)
    ensures r.ctx.Some? ==> r.err.code == Ok && r.ctx.value.a == a && r.ctx.value.row == i &&
                            r.ctx.value.col == j && r.value == Some(r.ctx.value.cofactor) &&
                            r.ctx.value.minor.Valid() && Signed(r.ctx.value.minor, i, j) == Success(r.ctx.value.cofactor)
  {
    if a.rows != a.cols then DetOps.DetResult(ErrA(NotSquare, a.Dim()), None, scratch, opts.persist, None)
    else if i >= a.rows || j >= a.cols then
      DetOps.DetResult(Error(IndexOutOfRange, a.Dim(), NoDim, i, j), None, scratch, opts.persist, None)
    else
      var cleared := EnterScratch(scratch);
      var m := MinorOfElement(cleared, a, i, j);
      if m.err != Ok then DetOps.DetResult(ErrA(m.err, a.Dim()), None, m.arena, opts.persist, None)
      else
        CoprimeOneZero();
        match Signed(m.minor, i, j)
        case Failure(e) => DetOps.DetResult(ErrA(e, a.Dim()), None, m.arena, opts.persist, None)
        case Success(c) =>
          var p := Persist(opts, COFACTOR_CTX_SIZE, COFACTOR_CTX_ALIGN);
          var ctx := if p.ec == Ok && opts.enable then Some(CofactorCtx(a, i, j, m.minor, c, m.opCount)) else None;
          DetOps.DetResult(DetOps.Epilogue(p), Some(c), m.arena, p.persist, ctx)
  }

  /** The minor op_cofactor_element computes, with its op count and the arena after it. */
  datatype ElementMinor = ElementMinor(err: ErrorCode, minor: Rational, opCount: nat, arena: Arena)

  /**
   * 1 for a 1 x 1 matrix; otherwise det_elim of the submatrix built in the
   * cleared arena: the minor of op_minor_matrix at (i, j). The body is
   * reached through a recursion on a depth the solver cannot see through.
   */
  function MinorOfElement(cleared: Arena, a: Matrix, i: nat, j: nat): (r: ElementMinor)
    requires cleared.Valid() && cleared.used == 0 && a.Wf() && a.rows == a.cols && i < a.rows && j < a.cols
    ensures r.err in {Ok, InvalidDimension, Overflow} && r.arena.Valid()
    ensures r.err == Ok ==> r.minor.Valid()
    ensures a.rows == 1 ==> r == ElementMinor(Ok, One, 0, cleared)
    ensures a.rows > 1 ==>
              (r.err == Ok <==> SubDet(cleared, a, i, j).Success?) &&
              (r.err == Ok ==> r.minor == SubDet(cleared, a, i, j).value) &&
              (r.err != Ok ==> SubDet(cleared, a, i, j) == Failure(r.err))
  {
    MinorOfElementAt(cleared, a, i, j, a.rows + 1)
  }

  function MinorOfElementAt(cleared: Arena, a: Matrix, i: nat, j: nat, depth: nat): (r: ElementMinor)
    requires cleared.Valid() && cleared.used == 0 && a.Wf() && a.rows == a.cols && i < a.rows && j < a.cols
    ensures r.err in {Ok, InvalidDimension, Overflow} && r.arena.Valid()
    ensures r.err == Ok ==> r.minor.Valid()
    ensures a.rows == 1 ==> r == ElementMinor(Ok, One, 0, cleared)
    ensures a.rows > 1 ==>
              (r.err == Ok <==> SubDet(cleared, a, i, j).Success?) &&
              (r.err == Ok ==> r.minor == SubDet(cleared, a, i, j).value) &&
              (r.err != Ok ==> SubDet(cleared, a, i, j) == Failure(r.err))
    decreases depth
  {
    if depth > 0 then MinorOfElementAt(cleared, a, i, j, depth - 1)
    else MinorOfElementBody(cleared, a, i, j)
  }

  function MinorOfElementBody(cleared: Arena, a: Matrix, i: nat, j: nat): (r: ElementMinor)
    requires cleared.Valid() && cleared.used == 0 && a.Wf() && a.rows == a.cols && i < a.rows && j < a.cols
    ensures r.err in {Ok, InvalidDimension, Overflow} && r.arena.Valid()
    ensures r.err == Ok ==> r.minor.Valid()
    ensures a.rows == 1 ==> r == ElementMinor(Ok, One, 0, cleared)
    ensures a.rows > 1 ==>
              (r.err == Ok <==> SubDet(cleared, a, i, j).Success?) &&
              (r.err == Ok ==> r.minor == SubDet(cleared, a, i, j).value) &&
              (r.err != Ok ==> SubDet(cleared, a, i, j) == Failure(r.err))
  {
    CoprimeOneZero();
    if a.rows == 1 then ElementMinor(Ok, One, 0, cleared)
    else
      SubDetDef(cleared, a, i, j, a.rows + 1);
      assert EnterScratch(cleared) == cleared;
      assert SubDet(cleared, a, i, j) == SubDetBody(cleared, a, i, j);
      match BuildSubmatrix(cleared, a, i, j)
      case Failure(e) => ElementMinor(e, Zero, 0, cleared)
      case Success(sub) =>
        var d := Det.DetElim(sub.m, NO_TARGET);
        if d.ec != Ok then ElementMinor(d.ec, Zero, 0, sub.arena)
        else ElementMinor(Ok, d.det.value, d.opCount.value, sub.arena)
  }

  lemma {:induction false} MinorOfElementDef(cleared: Arena, a: Matrix, i: nat, j: nat, depth: nat)
    requires cleared.Valid() && cleared.used == 0 && a.Wf() && a.rows == a.cols && i < a.rows && j < a.cols
    ensures MinorOfElementAt(cleared, a, i, j, depth) == MinorOfElementBody(cleared, a, i, j)
    decreases depth
  {
    if depth > 0 {
      MinorOfElementDef(cleared, a, i, j, depth - 1);
    }
  }

  /**
   * op_cofactor_element and op_minor_matrix agree: for n >= 2 the cofactor
   * is (-1)^(i+j) times the minor op_minor_matrix writes at (i, j), and it
   * fails exactly when that minor fails or its negation overflows.
   */
  lemma CofactorIsSignedMinor(a: Matrix, i: nat, j: nat, scratch: Arena, opts: Options)
    requires a.Wf() && a.rows == a.cols && 2 <= a.rows && i < a.rows && j < a.cols
    requires scratch.Valid() && OptionsValid(opts)
    ensures var r := OpCofactorElement(a, i, j, scratch, opts);
            var m := SubDet(scratch, a, i, j);
            (m.Failure? ==> r.err == ErrA(m.code, a.Dim()) && r.value.None?) &&
            (m.Success? ==> (Signed(m.value, i, j).Failure? <==> r.err == ErrA(Overflow, a.Dim()) && r.value.None?)) &&
            (m.Success? && Signed(m.value, i, j).Success? ==> r.value == Some(Signed(m.value, i, j).value))
  {
    SubDetCleared(scratch, a, i, j);
  }

  /** The explanation: A, the submatrix (n >= 2), one step per op, the formula. */
  function CofactorStepCount(ctx: CofactorCtx): (n: nat)
    ensures n == (if ctx.a.rows <= 1 then 1 else 2) + ctx.opCount + 1
  {
    var base: nat := if ctx.a.rows <= 1 then 1 else 2;
    base + ctx.opCount + 1
  }

  /** "$$C_{i+1,j+1} = (-1)^{i+j+2} M_{i+1,j+1} = v$$" */
  function CofactorText(i: nat, j: nat, v: Rational): string
  {
    "$$C_{" + Decimal(i + 1) + "," + Decimal(j + 1) + "} = (-1)^{" + Decimal(i + j + 2) + "} M_{" +
    Decimal(i + 1) + "," + Decimal(j + 1) + "} = " + RationalText(v) + "$$"
  }

  /**
   * write_cofactor_latex: BufferTooSmall for a missing or empty buffer;
   * otherwise twelve appends with an early return. The exponent is
   * (i + 1) + (j + 1) as a uint32, which cannot wrap for uint8 indices.
   */
  function WriteCofactorLatex(i: nat, j: nat, v: Rational, cap: nat): (r: Emitted)
    requires i < 256 && j < 256 && v.Valid()
    ensures r == Append(Fresh(cap), CofactorText(i, j, v))
  {
    CofactorLatexAt(i, j, v, cap, i + 1)
  }

  function CofactorLatexAt(i: nat, j: nat, v: Rational, cap: nat, depth: nat): (r: Emitted)
    requires i < 256 && j < 256 && v.Valid()
    ensures r == Append(Fresh(cap), CofactorText(i, j, v))
    decreases depth
  {
    if depth > 0 then CofactorLatexAt(i, j, v, cap, depth - 1) else CofactorLatexBody(i, j, v, cap)
  }

  function CofactorLatexBody(i: nat, j: nat, v: Rational, cap: nat): (r: Emitted)
    requires i < 256 && j < 256 && v.Valid()
    ensures r == Append(Fresh(cap), CofactorText(i, j, v))
  {
    var w := Fresh(cap);
    if cap == 0 then Emitted(w, BufferTooSmall)
    else
      var pi := Decimal(i + 1);
      var pj := Decimal(j + 1);
      var pe := Decimal(i + j + 2);
      var s1 := "$$C_{";
      var s2 := s1 + pi;
      var s3 := s2 + ",";
      var s4 := s3 + pj;
      var s5 := s4 + "} = (-1)^{";
      var s6 := s5 + pe;
      var s7 := s6 + "} M_{";
      var s8 := s7 + pi;
      var s9 := s8 + ",";
      var s10 := s9 + pj;
      var s11 := s10 + "} = ";
      var s12 := s11 + RationalText(v);
      var e1 := Append(w, s1);
      var e2 := if e1.ec != Ok then e1 else AppendIndex1(e1.w, i);
      var e3 := AppendThen(e2, ",");
      var e4 := if e3.ec != Ok then e3 else AppendIndex1(e3.w, j);
      var e5 := AppendThen(e4, "} = (-1)^{");
      var e6 := if e5.ec != Ok then e5 else AppendU64(e5.w, (i + 1) + (j + 1));
      var e7 := AppendThen(e6, "} M_{");
      var e8 := if e7.ec != Ok then e7 else AppendIndex1(e7.w, i);
      var e9 := AppendThen(e8, ",");
      var e10 := if e9.ec != Ok then e9 else AppendIndex1(e9.w, j);
      var e11 := AppendThen(e10, "} = ");
      var e12 := if e11.ec != Ok then e11 else AppendRationalLatex(e11.w, v);
      AppendChain(w, s1, pi);
      AppendChain(w, s2, ",");
      AppendChain(w, s3, pj);
      AppendChain(w, s4, "} = (-1)^{");
      AppendChain(w, s5, pe);
      AppendChain(w, s6, "} M_{");
      AppendChain(w, s7, pi);
      AppendChain(w, s8, ",");
      AppendChain(w, s9, pj);
      AppendChain(w, s10, "} = ");
      AppendChain(w, s11, RationalText(v));
      AppendChain(w, s12, "$$");
      AppendThen(e12, "$$")
  }

  /** "Delete row i+1, col j+1" */
  function DeleteText(i: nat, j: nat): string
  {
    "Delete row " + Decimal(i + 1) + ", col " + Decimal(j + 1)
  }

  /** The caption of step 1: four appends with an early return. */
  function WriteDeleteCaption(i: nat, j: nat, cap: nat): (r: Emitted)
    requires i < 256 && j < 256
    ensures r == Append(Fresh(cap), DeleteText(i, j))
  {
    DeleteCaptionAt(i, j, cap, i + 1)
  }

  function DeleteCaptionAt(i: nat, j: nat, cap: nat, depth: nat): (r: Emitted)
    requires i < 256 && j < 256
    ensures r == Append(Fresh(cap), DeleteText(i, j))
    decreases depth
  {
    if depth > 0 then DeleteCaptionAt(i, j, cap, depth - 1) else DeleteCaptionBody(i, j, cap)
  }

  function DeleteCaptionBody(i: nat, j: nat, cap: nat): (r: Emitted)
    requires i < 256 && j < 256
    ensures r == Append(Fresh(cap), DeleteText(i, j))
  {
    var w := Fresh(cap);
    var s1 := "Delete row ";
    var s2 := s1 + Decimal(i + 1);
    var s3 := s2 + ", col ";
    var e1 := Append(w, s1);
    var e2 := if e1.ec != Ok then e1 else AppendIndex1(e1.w, i);
    var e3 := AppendThen(e2, ", col ");
    AppendChain(w, s1, Decimal(i + 1));
    AppendChain(w, s2, ", col ");
    AppendChain(w, s3, Decimal(j + 1));
    if e3.ec != Ok then e3 else AppendIndex1(e3.w, j)
  }

  predicate CofactorCtxValid(ctx: CofactorCtx) {
    ctx.a.Wf() && ctx.row < 256 && ctx.col < 256 && ctx.cofactor.Valid()
  }

  /**
   * cofactor_render_step: Internal without a scratch arena; both buffers
   * are emptied; StepOutOfRange from the step count on; step 0 shows A as a
   * bmatrix; for n <= 1 every later step is the formula; otherwise the
   * submatrix is rebuilt in scratch; step 1 shows it (captioned "Delete row
   * .., col .." when there is a non-empty caption buffer), steps 2 to
   * op_count + 1 show it after det_elim stops at index - 1 ops, and the last
   * step is the formula.
   */
  function CofactorRender(ctx: CofactorCtx, index: nat, out: Buffers): (r: Rendered)
    requires CofactorCtxValid(ctx) && BuffersValid(out)
    ensures out.scratch.None? ==> r == Nothing(Internal)
    ensures out.scratch.Some? && index >= CofactorStepCount(ctx) ==> r == Nothing(StepOutOfRange)
    ensures out.scratch.Some? && index == 0 ==>
              r == WithLatex([], Latex.WriteMatrixDisplay(ctx.a, Latex.BMatrix, out.latexCap))
    ensures out.scratch.Some? && ctx.a.rows <= 1 && 0 < index < CofactorStepCount(ctx) ==>
              r == WithLatex([], Append(Fresh(out.latexCap), CofactorText(ctx.row, ctx.col, ctx.cofactor)))
    ensures out.scratch.Some? && ctx.a.rows > 1 && 0 < index < CofactorStepCount(ctx) ==>
              match BuildSubmatrix(out.scratch.value, ctx.a, ctx.row, ctx.col)
              case Failure(e) => r == Nothing(e)
              case Success(sub) =>
                (index == 1 && out.caption.None? ==>
                   r == WithLatex([], Latex.WriteMatrixDisplay(sub.m, Latex.BMatrix, out.latexCap))) &&
                (index == 1 && r.ec == Ok && out.caption.Some? && out.caption.value > 0 ==>
                   r.caption == DeleteText(ctx.row, ctx.col)) &&
                (index == CofactorStepCount(ctx) - 1 ==>
                   r == WithLatex([], Append(Fresh(out.latexCap), CofactorText(ctx.row, ctx.col, ctx.cofactor))))
  {
    CofactorRenderAt(ctx, index, out, index + 1)
  }

  function CofactorRenderAt(ctx: CofactorCtx, index: nat, out: Buffers, depth: nat): (r: Rendered)
    requires CofactorCtxValid(ctx) && BuffersValid(out)
    ensures out.scratch.None? ==> r == Nothing(Internal)
    ensures out.scratch.Some? && index >= CofactorStepCount(ctx) ==> r == Nothing(StepOutOfRange)
    ensures out.scratch.Some? && index == 0 ==>
              r == WithLatex([], Latex.WriteMatrixDisplay(ctx.a, Latex.BMatrix, out.latexCap))
    ensures out.scratch.Some? && ctx.a.rows <= 1 && 0 < index < CofactorStepCount(ctx) ==>
              r == WithLatex([], Append(Fresh(out.latexCap), CofactorText(ctx.row, ctx.col, ctx.cofactor)))
    ensures out.scratch.Some? && ctx.a.rows > 1 && 0 < index < CofactorStepCount(ctx) ==>
              match BuildSubmatrix(out.scratch.value, ctx.a, ctx.row, ctx.col)
              case Failure(e) => r == Nothing(e)
              case Success(sub) =>
                (index == 1 && out.caption.None? ==>
                   r == WithLatex([], Latex.WriteMatrixDisplay(sub.m, Latex.BMatrix, out.latexCap))) &&
                (index == 1 && r.ec == Ok && out.caption.Some? && out.caption.value > 0 ==>
                   r.caption == DeleteText(ctx.row, ctx.col)) &&
                (index == CofactorStepCount(ctx) - 1 ==>
                   r == WithLatex([], Append(Fresh(out.latexCap), CofactorText(ctx.row, ctx.col, ctx.cofactor))))
    decreases depth
  {
    if depth > 0 then CofactorRenderAt(ctx, index, out, depth - 1) else CofactorRenderBody(ctx, index, out)
  }

  function CofactorRenderBody(ctx: CofactorCtx, index: nat, out: Buffers): (r: Rendered)
    requires CofactorCtxValid(ctx) && BuffersValid(out)
    ensures out.scratch.None? ==> r == Nothing(Internal)
    ensures out.scratch.Some? && index >= CofactorStepCount(ctx) ==> r == Nothing(StepOutOfRange)
    ensures out.scratch.Some? && index == 0 ==>
              r == WithLatex([], Latex.WriteMatrixDisplay(ctx.a, Latex.BMatrix, out.latexCap))
    ensures out.scratch.Some? && ctx.a.rows <= 1 && 0 < index < CofactorStepCount(ctx) ==>
              r == WithLatex([], Append(Fresh(out.latexCap), CofactorText(ctx.row, ctx.col, ctx.cofactor)))
    ensures out.scratch.Some? && ctx.a.rows > 1 && 0 < index < CofactorStepCount(ctx) ==>
              match BuildSubmatrix(out.scratch.value, ctx.a, ctx.row, ctx.col)
              case Failure(e) => r == Nothing(e)
              case Success(sub) =>
                (index == 1 && out.caption.None? ==>
                   r == WithLatex([], Latex.WriteMatrixDisplay(sub.m, Latex.BMatrix, out.latexCap))) &&
                (index == 1 && r.ec == Ok && out.caption.Some? && out.caption.value > 0 ==>
                   r.caption == DeleteText(ctx.row, ctx.col)) &&
                (index == CofactorStepCount(ctx) - 1 ==>
                   r == WithLatex([], Append(Fresh(out.latexCap), CofactorText(ctx.row, ctx.col, ctx.cofactor))))
  {
    var n := ctx.a.rows;
    var base: nat := if n <= 1 then 1 else 2;
    if out.scratch.None? then Nothing(Internal)
    else if index >= base + ctx.opCount + 1 then Nothing(StepOutOfRange)
    else if index == 0 then WithLatex([], Latex.WriteMatrixDisplay(ctx.a, Latex.BMatrix, out.latexCap))
    else if n <= 1 then WithLatex([], WriteCofactorLatex(ctx.row, ctx.col, ctx.cofactor, out.latexCap))
    else
      match BuildSubmatrix(out.scratch.value, ctx.a, ctx.row, ctx.col)
      case Failure(e) => Nothing(e)
      case Success(sub) => CofactorSubStep(ctx, index, out, sub.m)
  }

  /** The steps of cofactor_render_step from 1 on, once the submatrix is rebuilt. */
  function CofactorSubStep(ctx: CofactorCtx, index: nat, out: Buffers, sub: Matrix): (r: Rendered)
    requires CofactorCtxValid(ctx) && BuffersValid(out) && sub.Wf()
    requires ctx.a.rows > 1 && 0 < index < CofactorStepCount(ctx)
    ensures index == 1 && out.caption.None? ==>
              r == WithLatex([], Latex.WriteMatrixDisplay(sub, Latex.BMatrix, out.latexCap))
    ensures index == 1 && r.ec == Ok && out.caption.Some? && out.caption.value > 0 ==>
              r.caption == DeleteText(ctx.row, ctx.col)
    ensures index == CofactorStepCount(ctx) - 1 ==>
              r == WithLatex([], Append(Fresh(out.latexCap), CofactorText(ctx.row, ctx.col, ctx.cofactor)))
  {
    if index == 1 then DeleteStep(ctx, out, sub)
    else if index < 1 + ctx.opCount + 1 then DetOps.ElimStep(sub, index - 1, out, Latex.BMatrix)
    else WithLatex([], WriteCofactorLatex(ctx.row, ctx.col, ctx.cofactor, out.latexCap))
  }

  /** Step 1: the submatrix, captioned "Delete row .., col .." when there is a caption buffer. */
  function DeleteStep(ctx: CofactorCtx, out: Buffers, sub: Matrix): (r: Rendered)
    requires CofactorCtxValid(ctx) && BuffersValid(out) && sub.Wf()
    ensures out.caption.None? ==>
              r == WithLatex([], Latex.WriteMatrixDisplay(sub, Latex.BMatrix, out.latexCap))
    ensures r.ec == Ok && out.caption.Some? && out.caption.value > 0 ==>
              r.caption == DeleteText(ctx.row, ctx.col)
  {
    if out.caption.Some? && out.caption.value > 0 then
      var c := WriteDeleteCaption(ctx.row, ctx.col, out.caption.value);
      if c.ec != Ok then Rendered(c.ec, c.w.text, [])
      else WithLatex(c.w.text, Latex.WriteMatrixDisplay(sub, Latex.BMatrix, out.latexCap))
    else WithLatex([], Latex.WriteMatrixDisplay(sub, Latex.BMatrix, out.latexCap))
  }
  lemma {:induction false} CofactorRenderDef(ctx: CofactorCtx, index: nat, out: Buffers, depth: nat)
    requires CofactorCtxValid(ctx) && BuffersValid(out)
    ensures CofactorRenderAt(ctx, index, out, depth) == CofactorRenderBody(ctx, index, out)
    decreases depth
  {
    if depth > 0 {
      CofactorRenderDef(ctx, index, out, depth - 1);
    }
  }


  /**
   * The row-op steps of a stored cofactor explanation whose op count is
   * that of the unobserved run on the submatrix: step k + 1, for k from 1
   * to op_count, captions the run's k-th op and shows the submatrix after
   * its first k ops.
   */
  lemma CofactorRenderStep(ctx: CofactorCtx, k: nat, out: Buffers)
    requires CofactorCtxValid(ctx) && BuffersValid(out) && ctx.a.rows > 1
    requires out.scratch.Some? && BuildSubmatrix(out.scratch.value, ctx.a, ctx.row, ctx.col).Success?
    requires ctx.opCount == |Det.DetRun(Submatrix(ctx.a, ctx.row, ctx.col), None).s.trace|
    requires 1 <= k <= ctx.opCount
    ensures var sub := Submatrix(ctx.a, ctx.row, ctx.col);
            var t := Det.DetRun(sub, None).s.trace;
            AllFit(t[..k], sub) && t[k - 1].Wf() && Replay(sub, t[..k]).ec == Ok &&
            CofactorRender(ctx, k + 1, out) == DetOps.Captioned(t[k - 1], out, Replay(sub, t[..k]).m, Latex.BMatrix)
  {
    var sub := Submatrix(ctx.a, ctx.row, ctx.col);
    CofactorRenderDef(ctx, k + 1, out, k + 2);
    CofactorRenderElim(ctx, k, out);
    DetOps.ElimStepShows(sub, k, out, Latex.BMatrix);
  }

  /** Steps 2 to op_count + 1 are det_elim steps on the rebuilt submatrix. */
  lemma CofactorRenderElim(ctx: CofactorCtx, k: nat, out: Buffers)
    requires CofactorCtxValid(ctx) && BuffersValid(out) && ctx.a.rows > 1
    requires out.scratch.Some? && BuildSubmatrix(out.scratch.value, ctx.a, ctx.row, ctx.col).Success?
    requires 1 <= k <= ctx.opCount
    ensures CofactorRenderBody(ctx, k + 1, out) == DetOps.ElimStep(Submatrix(ctx.a, ctx.row, ctx.col), k, out, Latex.BMatrix)
  {
  }

}
