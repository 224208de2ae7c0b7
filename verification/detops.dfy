/**
 * The determinant operations built on det_elim: op_det and its on-demand
 * explanation (ops_det_ondemand.cpp), the determinant of A with one column
 * replaced by b (ops_det_replace_column_ondemand.cpp) and Cramer's rule
 * (ops_cramer.cpp).
 */
module DetOps {

  import opened Errors
  import opened Rationals
  import opened Matrices
  import opened RowOps
  import opened Arenas
  import opened Writers
  import opened Explaining
  import Kernels
  import Det
  import Latex
  import Captions

  // ---------------------------------------------------------------------
  // The row-op steps every det_elim explanation shares
  // ---------------------------------------------------------------------

  /** `RowOp last{}` as det_elim leaves it: the reported last op, or the default. */
  function LastOr(last: Option<RowOp>): RowOp
  {
    match last
    case Some(op) => op
    case None => DefaultOp
  }

  /** The last op det_elim reports is one of its run's ops, so it fits the matrix. */
  lemma DetElimLastFits(m: Matrix, T: nat)
    requires Det.Square(m)
    ensures var d := Det.DetElim(m, T);
            d.last.Some? ==> d.last.value.FitsIn(m)
  {
    var k := Det.DetRun(m, Some(NewObserver(T)));
    assert Det.DetElim(m, T) == Det.Report(k.flow, k.s.m, k.s.trace, T);
  }

  /**
   * A row-op step: the op's caption when there is a caption buffer (a
   * caption that does not fit ends the step), then the matrix as display
   * LaTeX.
   */
  function Captioned(op: RowOp, out: Buffers, shown: Matrix, b: Latex.Brackets): (r: Rendered)
    requires op.Wf() && shown.Wf()
    ensures r.ec == Ok || r.ec == BufferTooSmall
    ensures r.ec == Ok ==> r.latex == Latex.Display(Latex.MatrixText(shown, b))
    ensures r.ec == Ok ==> r.caption == (if out.caption.Some? then Captions.CaptionText(op) else [])
  {
    match out.caption
    case None => WithLatex([], Latex.WriteMatrixDisplay(shown, b, out.latexCap))
    case Some(cap) =>
      var c := Captions.RowOpCaption(op, cap);
      if c.ec != Ok then Rendered(c.ec, c.w.text, [])
      else WithLatex(c.w.text, Latex.WriteMatrixDisplay(shown, b, out.latexCap))
  }

  /**
   * The middle steps of the det-based renderers: det_elim stopping after T
   * ops (an error ends the step; a run that ends with fewer ops is
   * StepOutOfRange), then the caption of the last op and the matrix.
   */
  function ElimStep(work: Matrix, T: nat, out: Buffers, b: Latex.Brackets): (r: Rendered)
    requires work.Wf() && T >= 1
    ensures r.ec in {Ok, NotSquare, Overflow, StepOutOfRange, BufferTooSmall}
    ensures work.rows != work.cols ==> r == Nothing(NotSquare)
  {
    var d := Det.DetElim(work, T);
    if d.ec != Ok then Nothing(d.ec)
    else if d.opCount.value < T then Nothing(StepOutOfRange)
    else
      DetElimLastFits(work, T);
      Captioned(LastOr(d.last), out, d.work, b)
  }

  /**
   * Step T of a det_elim explanation in terms of the unobserved run on the
   * same matrix: when the run applies at least T ops, the step captions the
   * T-th op and shows the matrix the first T ops produce; when it applies
   * fewer, the step fails (overflow or out of range) and writes nothing.
   */
  lemma ElimStepShows(work: Matrix, T: nat, out: Buffers, b: Latex.Brackets)
    requires Det.Square(work) && T >= 1
    ensures var full := Det.DetRun(work, None);
            |full.s.trace| >= T ==>
              AllFit(full.s.trace[..T], work) && full.s.trace[T - 1].Wf() &&
              Replay(work, full.s.trace[..T]).ec == Ok &&
              ElimStep(work, T, out, b) == Captioned(full.s.trace[T - 1], out, Replay(work, full.s.trace[..T]).m, b)
    ensures var full := Det.DetRun(work, None);
            var r := ElimStep(work, T, out, b);
            |full.s.trace| < T ==> (r.ec == Overflow || r.ec == StepOutOfRange) && r.caption == [] && r.latex == []
  {
    var full := Det.DetRun(work, None);
    Det.DetElimStep(work, T);
    if |full.s.trace| >= T {
      assert full.s.trace[..T][T - 1] == full.s.trace[T - 1];
    } else {
      Det.DetElimComplete(work);
    }
  }

  /** The explanation epilogue's outcome as the operation's error. */
  function Epilogue(p: Persisted): (e: Error)
    ensures e.code == p.ec && e.a == NoDim && e.b == NoDim
  {
    ErrCode(p.ec)
  }

  // ---------------------------------------------------------------------
  // op_det
  // ---------------------------------------------------------------------

  /** DetCtx: the input, its determinant and the op count of the full run. */
  datatype DetCtx = DetCtx(input: Matrix, det: Rational, opCount: nat)

  /** sizeof(DetCtx) and alignof(DetCtx) on an LP64 host: a 16-byte view, a rational, a size_t. */
  const DET_CTX_SIZE: nat := 40
  const DET_CTX_ALIGN: nat := 8

  /**
   * What a determinant operation leaves: the error, the value written to
   * *out (None when out is left alone), the scratch and persist arenas, and
   * the stored explanation context.
   */
  datatype DetResult<C> = DetResult(err: Error, value: Option<Rational>, scratch: Arena, persist: Option<Arena>, ctx: Option<C>)

  /**
   * op_det: NotSquare first; then the scratch arena is cleared and A is
   * cloned into it (its error, InvalidDimension included, is reported
   * without a shape); det_elim's error is reported with A's shape;
   * otherwise *out receives the determinant and the explanation, if asked
   * for, is stored.
   */
  function OpDet(a: Matrix, scratch: Arena, opts: Options): (r: DetResult<DetCtx>)
    requires a.Wf() && scratch.Valid() && OptionsValid(opts)
    ensures a.rows != a.cols ==> r == DetResult(ErrA(NotSquare, a.Dim()), None, scratch, opts.persist, None)
    ensures r.err.code in {Ok, NotSquare, InvalidDimension, Overflow, Internal}
    ensures a.rows == a.cols ==> (r.err.code == InvalidDimension <==> !ValidDim(a.rows, a.cols))
    ensures r.err.code in {Ok, Internal} ==> r.value.Some?
    ensures r.value.Some? ==> r.value.value.Valid()
    ensures r.err.code != Ok ==> r.ctx.None?
    ensures r.err.code == Ok ==> (r.ctx.Some? <==> opts.enable)
    ensures r.ctx.Some? ==> r.ctx.value.input == a && r.value == Some(r.ctx.value.det)
    ensures r.err.code == Ok && opts.enable ==> r.persist.Some?
  {
    if a.rows != a.cols then DetResult(ErrA(NotSquare, a.Dim()), None, scratch, opts.persist, None)
    else
      var cleared := EnterScratch(scratch);
      match Clone(cleared, a)
      case Failure(e) => DetResult(ErrCode(e), None, cleared, opts.persist, None)
      case Success(w) =>
        var d := Det.DetElim(w.m, NO_TARGET);
        if d.ec != Ok then DetResult(ErrA(d.ec, a.Dim()), None, w.arena, opts.persist, None)
        else
          var p := Persist(opts, DET_CTX_SIZE, DET_CTX_ALIGN);
          var ctx := if p.ec == Ok && opts.enable then Some(DetCtx(a, d.det.value, d.opCount.value)) else None;
          DetResult(Epilogue(p), d.det, w.arena, p.persist, ctx)
  }

  /**
   * op_det in terms of the unobserved elimination run on A (square, with a
   * clone that fits in the scratch arena): an overflow in the run is the
   * operation's error and leaves *out alone; otherwise *out is 0 exactly
   * when some column had no pivot, and a completed run yields the sign of
   * its swaps times the diagonal of the triangular matrix it reached; the
   * stored explanation counts the run's ops.
   */
  lemma OpDetCorrect(a: Matrix, scratch: Arena, opts: Options)
    requires Det.Square(a) && scratch.Valid() && OptionsValid(opts)
    requires Clone(EnterScratch(scratch), a).Success?
    ensures var full := Det.DetRun(a, None);
            var r := OpDet(a, scratch, opts);
            (full.flow == Kernels.Fail(Overflow) ==> r.err == ErrA(Overflow, a.Dim()) && r.value.None?) &&
            (full.flow == Kernels.Fail(Singular) ==> r.value == Some(Zero)) &&
            (r.ctx.Some? ==> r.ctx.value.opCount == |full.s.trace|)
    ensures var full := Det.DetRun(a, None);
            var r := OpDet(a, scratch, opts);
            r.value.Some? ==> (r.value.value.IsZero() <==> full.flow == Kernels.Fail(Singular))
    ensures var full := Det.DetRun(a, None);
            var r := OpDet(a, scratch, opts);
            full.flow == Kernels.Go && r.value.Some? ==>
              Det.UpperUpTo(full.s.m, a.rows) && Det.PivotsUpTo(full.s.m, a.rows) &&
              Replay(a, full.s.trace) == Written(full.s.m, Ok) &&
              r.value.value.Val() == Det.SignedDiag(full.s.trace, full.s.m)
  {
    OpDetElim(a, scratch, opts);
    Det.DetElimComplete(a);
    var d := Det.DetElim(a, NO_TARGET);
    if d.det.Some? {
      ZeroIsZero(d.det.value);
    }
  }

  /** A valid rational is zero exactly when its value is. */
  lemma ZeroIsZero(q: Rational)
    requires q.Valid()
    ensures q.IsZero() <==> q.Val() == 0.0
    ensures q.IsZero() <==> q == Zero
  {
    ZeroOneByValue(q);
    CoprimeOneZero();
    ZeroOneByValue(Zero);
    if q.IsZero() {
      ValInjective(q, Zero);
    }
  }

  /** op_det reports what det_elim reports on the clone, which is A itself. */
  lemma OpDetElim(a: Matrix, scratch: Arena, opts: Options)
    requires Det.Square(a) && scratch.Valid() && OptionsValid(opts)
    requires Clone(EnterScratch(scratch), a).Success?
    ensures var d := Det.DetElim(a, NO_TARGET);
            var r := OpDet(a, scratch, opts);
            r.value == (if d.ec == Ok then d.det else None) &&
            (d.ec != Ok ==> r.err == ErrA(d.ec, a.Dim())) &&
            (r.ctx.Some? ==> Some(r.ctx.value.opCount) == d.opCount)
  {
  }

  /** The explanation of op_det: A, one step per op, then the value. */
  function DetStepCount(ctx: DetCtx): (n: nat)
    ensures n >= 2
  {
    ctx.opCount + 2
  }

  /** The text of the last step: "$$\det(A) = v$$". */
  function DetValueText(q: Rational): string
  {
    "$$\\det(A) = " + RationalText(q) + "$$"
  }

  /** The last step's writer: three appends with an early return. */
  function WriteDetValue(q: Rational, cap: nat): (r: Emitted)
    requires q.Valid()
    ensures r == Append(Fresh(cap), DetValueText(q))
  {
    var w := Fresh(cap);
    var e1 := Append(w, "$$\\det(A) = ");
    var e2 := if e1.ec != Ok then e1 else AppendRationalLatex(e1.w, q);
    AppendChain(w, "$$\\det(A) = ", RationalText(q));
    AppendChain(w, "$$\\det(A) = " + RationalText(q), "$$");
    AppendThen(e2, "$$")
  }

  /**
   * det_render_step: Internal without a scratch arena; both buffers are
   * emptied; StepOutOfRange from the step count on; step 0 shows A as a
   * vmatrix, the last step the determinant; step k clones A into scratch
   * and shows it after det_elim stops at k ops.
   */
  function DetRender(ctx: DetCtx, index: nat, out: Buffers): (r: Rendered)
    requires ctx.input.Wf() && ctx.det.Valid() && BuffersValid(out)
    ensures out.scratch.None? ==> r == Nothing(Internal)
    ensures out.scratch.Some? && index >= DetStepCount(ctx) ==> r == Nothing(StepOutOfRange)
    ensures out.scratch.Some? && index == 0 ==>
              r == WithLatex([], Latex.WriteMatrixDisplay(ctx.input, Latex.VMatrix, out.latexCap))
    ensures out.scratch.Some? && index == DetStepCount(ctx) - 1 ==>
              r == WithLatex([], Append(Fresh(out.latexCap), DetValueText(ctx.det)))
    ensures r.caption != [] ==> 0 < index < DetStepCount(ctx) - 1 && out.caption.Some?
  {
    if out.scratch.None? then Nothing(Internal)
    else if index >= ctx.opCount + 2 then Nothing(StepOutOfRange)
    else if index == 0 then WithLatex([], Latex.WriteMatrixDisplay(ctx.input, Latex.VMatrix, out.latexCap))
    else if index == ctx.opCount + 1 then WithLatex([], WriteDetValue(ctx.det, out.latexCap))
    else
      match Clone(out.scratch.value, ctx.input)
      case Failure(e) => Nothing(e)
      case Success(w) => ElimStep(w.m, index, out, Latex.VMatrix)
  }

  /**
   * The middle steps of the explanation op_det stores (its op count is that
   * of the unobserved run on A): step k, for k from 1 to the op count,
   * captions the run's k-th op and shows the matrix its first k ops produce.
   */
  lemma DetRenderStep(ctx: DetCtx, index: nat, out: Buffers)
    requires Det.Square(ctx.input) && ctx.det.Valid() && BuffersValid(out)
    requires ctx.opCount == |Det.DetRun(ctx.input, None).s.trace|
    requires out.scratch.Some? && Clone(out.scratch.value, ctx.input).Success?
    requires 1 <= index <= ctx.opCount
    ensures var t := Det.DetRun(ctx.input, None).s.trace;
            AllFit(t[..index], ctx.input) && t[index - 1].Wf() &&
            Replay(ctx.input, t[..index]).ec == Ok &&
            DetRender(ctx, index, out) ==
              Captioned(t[index - 1], out, Replay(ctx.input, t[..index]).m, Latex.VMatrix)
  {
    ElimStepShows(ctx.input, index, out, Latex.VMatrix);
  }

  // ---------------------------------------------------------------------
  // The determinant of A with column col replaced by b
  // ---------------------------------------------------------------------

  /** A column b (n x 1) for the n x n matrix a, and a column index of a. */
  predicate ColumnFor(a: Matrix, b: Matrix, col: nat) {
    a.Wf() && b.Wf() && b.rows == a.rows && b.cols == 1 && col < a.cols
  }

  /** The loop of build_matrix: rows from `row` on get b's entry in column col. */
  function SetColumn(m: Matrix, b: Matrix, col: nat, row: nat): (r: Matrix)
    requires ColumnFor(m, b, col) && row <= m.rows
    ensures r.Wf() && SameDim(r, m)
    ensures forall i :: 0 <= i < row ==> r.cells[i] == m.cells[i]
    ensures forall i, j :: row <= i < m.rows && 0 <= j < m.cols ==>
              r.cells[i][j] == if j == col then b.cells[i][0] else m.cells[i][j]
    decreases m.rows - row
  {
    if row == m.rows then m
    else SetColumn(m.Set(row, col, b.cells[row][0]), b, col, row + 1)
  }

  /**
   * build_matrix (and the body of det_replace_col_of): clone A into the
   * arena, then overwrite column col with b.
   */
  function ReplaceColumn(arena: Arena, a: Matrix, b: Matrix, col: nat): (r: Result<Allocated>)
    requires arena.Valid() && ColumnFor(a, b, col)
    ensures r.Failure? ==> r.code in {InvalidDimension, Overflow}
    ensures r.Failure? <==> Clone(arena, a).Failure?
    ensures r.Success? ==> r.value.m.Wf() && SameDim(r.value.m, a) && r.value.arena.Valid()
    ensures r.Success? ==> forall i, j :: 0 <= i < a.rows && 0 <= j < a.cols ==>
              r.value.m.cells[i][j] == if j == col then b.cells[i][0] else a.cells[i][j]
  {
    match Clone(arena, a)
    case Failure(e) => Failure(e)
    case Success(w) => Success(Allocated(SetColumn(w.m, b, col, 0), w.arena))
  }

  /** DetReplaceColCtx: a, b, col, the determinant and the op count. */
  datatype ReplaceCtx = ReplaceCtx(a: Matrix, b: Matrix, col: nat, det: Rational, opCount: nat)

  /** sizeof and alignof of DetReplaceColCtx on an LP64 host: two views, a uint8 padded to 8, a rational, a size_t. */
  const REPLACE_CTX_SIZE: nat := 64
  const REPLACE_CTX_ALIGN: nat := 8

  /**
   * op_det_replace_column: NotSquare, DimensionMismatch unless b is n x 1
   * (with both shapes), IndexOutOfRange with i = col unless col < n; then
   * as op_det on the matrix build_matrix makes.
   */
  function OpDetReplaceColumn(a: Matrix, b: Matrix, col: nat, scratch: Arena, opts: Options): (r: DetResult<ReplaceCtx>)
    requires a.Wf() && b.Wf() && col < 256 && scratch.Valid() && OptionsValid(opts)
    ensures a.rows != a.cols ==> r.err == ErrA(NotSquare, a.Dim())
    ensures a.rows == a.cols && (b.rows != a.rows || b.cols != 1) ==> r.err == ErrAB(DimensionMismatch, a.Dim(), b.Dim())
    ensures a.rows == a.cols && b.rows == a.rows && b.cols == 1 && col >= a.cols ==>
              r.err == Error(IndexOutOfRange, a.Dim(), NoDim, col, 0)
    ensures r.err.code in {NotSquare, DimensionMismatch, IndexOutOfRange} ==>
              r.value.None? && r.scratch == scratch && r.persist == opts.persist && r.ctx.None?
    ensures r.err.code in {Ok, NotSquare, DimensionMismatch, IndexOutOfRange, InvalidDimension, Overflow, Internal}
    ensures r.err.code in {Ok, Internal} ==> r.value.Some?
    ensures r.value.Some? ==> r.value.value.Valid()
    ensures r.err.code == Ok ==> (r.ctx.Some? <==> opts.enable)
    ensures r.ctx.Some? ==> r.err.code == Ok && r.ctx.value.a == a && r.ctx.value.b == b &&
                            r.ctx.value.col == col && r.value == Some(r.ctx.value.det)
  {
    if a.rows != a.cols then DetResult(ErrA(NotSquare, a.Dim()), None, scratch, opts.persist, None)
    else if b.rows != a.rows || b.cols != 1 then
      DetResult(ErrAB(DimensionMismatch, a.Dim(), b.Dim()), None, scratch, opts.persist, None)
    else if col >= a.cols then
      DetResult(Error(IndexOutOfRange, a.Dim(), NoDim, col, 0), None, scratch, opts.persist, None)
    else ReplaceChecked(a, b, col, scratch, opts)
  }

  /** op_det_replace_column once the shapes and the column index are checked. */
  function ReplaceChecked(a: Matrix, b: Matrix, col: nat, scratch: Arena, opts: Options): (r: DetResult<ReplaceCtx>)
    requires a.Wf() && b.Wf() && scratch.Valid() && OptionsValid(opts)
    requires a.rows == a.cols && b.rows == a.rows && b.cols == 1 && col < a.cols
    ensures r.err.code in {Ok, InvalidDimension, Overflow, Internal}
    ensures r.err.code in {Ok, Internal} ==> r.value.Some?
    ensures r.value.Some? ==> r.value.value.Valid()
    ensures r.err.code == Ok ==> (r.ctx.Some? <==> opts.enable)
    ensures r.ctx.Some? ==> r.err.code == Ok && r.ctx.value.a == a && r.ctx.value.b == b &&
                            r.ctx.value.col == col && r.value == Some(r.ctx.value.det)
  {
    var cleared := EnterScratch(scratch);
    match ReplaceColumn(cleared, a, b, col)
    case Failure(e) => DetResult(ErrCode(e), None, cleared, opts.persist, None)
    case Success(w) =>
      var d := Det.DetElim(w.m, NO_TARGET);
      if d.ec != Ok then DetResult(ErrA(d.ec, a.Dim()), None, w.arena, opts.persist, None)
      else
        var p := Persist(opts, REPLACE_CTX_SIZE, REPLACE_CTX_ALIGN);
        var ctx := if p.ec == Ok && opts.enable then Some(ReplaceCtx(a, b, col, d.det.value, d.opCount.value)) else None;
        DetResult(Epilogue(p), d.det, w.arena, p.persist, ctx)
  }

  /**
   * op_det_replace_column is op_det of A_col, the matrix A with column col
   * replaced by b: the same error and the same value.
   */
  lemma ReplaceColumnIsDet(a: Matrix, b: Matrix, col: nat, scratch: Arena)
    requires Det.Square(a) && ColumnFor(a, b, col) && col < 256 && scratch.Valid()
    requires ReplaceColumn(EnterScratch(scratch), a, b, col).Success?
    ensures var ac := ReplaceColumn(EnterScratch(scratch), a, b, col).value.m;
            Det.Square(ac) &&
            OpDetReplaceColumn(a, b, col, scratch, NoExplain).err == OpDet(ac, scratch, NoExplain).err &&
            OpDetReplaceColumn(a, b, col, scratch, NoExplain).value == OpDet(ac, scratch, NoExplain).value
  {
    var cleared := EnterScratch(scratch);
    var ac := ReplaceColumn(cleared, a, b, col).value.m;
    assert EnterScratch(scratch) == EnterScratch(cleared);
    CloneCopies(cleared, ac, a);
  }

  /** Cloning depends on the source only through its shape. */
  lemma CloneCopies(arena: Arena, m: Matrix, n: Matrix)
    requires arena.Valid() && m.Wf() && n.Wf() && SameDim(m, n)
    ensures Clone(arena, m).Success? <==> Clone(arena, n).Success?
    ensures Clone(arena, m).Success? ==> Clone(arena, m).value.m == m
  {
  }

  /** "$$\det(A_{col+1}) = v$$" */
  function ReplaceValueText(col: nat, q: Rational): string
  {
    "$$\\det(A_{" + Decimal(col + 1) + "}) = " + RationalText(q) + "$$"
  }

  /** The last step's writer: five appends with an early return. */
  function WriteReplaceValue(col: nat, q: Rational, cap: nat): (r: Emitted)
    requires col < 256 && q.Valid()
    ensures r == Append(Fresh(cap), ReplaceValueText(col, q))
  {
    var w := Fresh(cap);
    var p1 := "$$\\det(A_{";
    var p2 := Decimal(col + 1);
    var p3 := "}) = ";
    var p4 := RationalText(q);
    var e1 := Append(w, p1);
    var e2 := if e1.ec != Ok then e1 else AppendIndex1(e1.w, col);
    var e3 := AppendThen(e2, p3);
    var e4 := if e3.ec != Ok then e3 else AppendRationalLatex(e3.w, q);
    AppendChain(w, p1, p2);
    AppendChain(w, p1 + p2, p3);
    AppendChain(w, p1 + p2 + p3, p4);
    AppendChain(w, p1 + p2 + p3 + p4, "$$");
    AppendThen(e4, "$$")
  }

  /** det_replace_step_count: A_col, one step per op, then the value. */
  function ReplaceStepCount(ctx: ReplaceCtx): (n: nat)
    ensures n >= 2 && n - 2 == ctx.opCount
  {
    ctx.opCount + 2
  }

  predicate ReplaceCtxValid(ctx: ReplaceCtx) {
    ColumnFor(ctx.a, ctx.b, ctx.col) && ctx.col < 256 && ctx.det.Valid()
  }

  /**
   * det_replace_render_step: Internal without a scratch arena; both
   * buffers are emptied; StepOutOfRange from the step count on; then A_col
   * is rebuilt in scratch (before any step is drawn); step 0 shows it,
   * the last step the value, step k its state after det_elim stops at k
   * ops.
   */
  function ReplaceRender(ctx: ReplaceCtx, index: nat, out: Buffers): (r: Rendered)
    requires ReplaceCtxValid(ctx) && BuffersValid(out)
    ensures out.scratch.None? ==> r == Nothing(Internal)
    ensures out.scratch.Some? && index >= ReplaceStepCount(ctx) ==> r == Nothing(StepOutOfRange)
    ensures out.scratch.Some? && index < ReplaceStepCount(ctx) ==>
              match ReplaceColumn(out.scratch.value, ctx.a, ctx.b, ctx.col)
              case Failure(e) => r == Nothing(e)
              case Success(w) =>
                (index == 0 ==> r == WithLatex([], Latex.WriteMatrixDisplay(w.m, Latex.VMatrix, out.latexCap))) &&
                (index == ctx.opCount + 1 ==>
                   r == WithLatex([], Append(Fresh(out.latexCap), ReplaceValueText(ctx.col, ctx.det))))
    ensures r.caption != [] ==> 0 < index < ctx.opCount + 1 && out.caption.Some?
  {
    if out.scratch.None? then Nothing(Internal)
    else if index >= ctx.opCount + 2 then Nothing(StepOutOfRange)
    else
      match ReplaceColumn(out.scratch.value, ctx.a, ctx.b, ctx.col)
      case Failure(e) => Nothing(e)
      case Success(w) =>
        if index == 0 then WithLatex([], Latex.WriteMatrixDisplay(w.m, Latex.VMatrix, out.latexCap))
        else if index == ctx.opCount + 1 then WithLatex([], WriteReplaceValue(ctx.col, ctx.det, out.latexCap))
        else ElimStep(w.m, index, out, Latex.VMatrix)
  }

  /**
   * The middle steps of a stored replace-column explanation whose op count
   * is that of the unobserved run on A_col: step k captions the run's k-th
   * op and shows A_col after its first k ops.
   */
  lemma ReplaceRenderStep(ctx: ReplaceCtx, index: nat, out: Buffers)
    requires ReplaceCtxValid(ctx) && ctx.a.rows == ctx.a.cols && BuffersValid(out)
    requires out.scratch.Some? && ReplaceColumn(out.scratch.value, ctx.a, ctx.b, ctx.col).Success?
    requires ctx.opCount == |Det.DetRun(ReplaceColumn(out.scratch.value, ctx.a, ctx.b, ctx.col).value.m, None).s.trace|
    requires 1 <= index <= ctx.opCount
    ensures var ac := ReplaceColumn(out.scratch.value, ctx.a, ctx.b, ctx.col).value.m;
            var t := Det.DetRun(ac, None).s.trace;
            AllFit(t[..index], ac) && t[index - 1].Wf() && Replay(ac, t[..index]).ec == Ok &&
            ReplaceRender(ctx, index, out) == Captioned(t[index - 1], out, Replay(ac, t[..index]).m, Latex.VMatrix)
  {
    var ac := ReplaceColumn(out.scratch.value, ctx.a, ctx.b, ctx.col).value.m;
    ElimStepShows(ac, index, out, Latex.VMatrix);
  }

  // ---------------------------------------------------------------------
  // Cramer's rule
  // ---------------------------------------------------------------------

  /** det_of: clear the scratch arena, clone A into it, run det_elim. */
  function DetOf(scratch: Arena, a: Matrix): (r: Result<Rational>)
    requires scratch.Valid() && a.Wf()
    ensures r.Failure? ==> r.code in {InvalidDimension, Overflow, NotSquare}
    ensures r.Success? ==> r.value.Valid()
  {
    match Clone(EnterScratch(scratch), a)
    case Failure(e) => Failure(e)
    case Success(w) =>
      var d := Det.DetElim(w.m, NO_TARGET);
      if d.ec != Ok then Failure(d.ec) else Success(d.det.value)
  }

  /**
   * det_replace_col_of: det_of of A with column col replaced by b. Its body
   * (DetReplaceColBody) is reached through a recursion on a depth the
   * solver cannot see through, so that the column loop of Cramer's rule
   * reasons from this contract.
   */
  function DetReplaceColOf(scratch: Arena, a: Matrix, b: Matrix, col: nat): (r: Result<Rational>)
    requires scratch.Valid() && ColumnFor(a, b, col)
    ensures r.Failure? ==> r.code in {InvalidDimension, Overflow, NotSquare}
    ensures r.Success? ==> r.value.Valid()
  {
    DetReplaceColAt(scratch, a, b, col, a.rows + 1)
  }

  function DetReplaceColAt(scratch: Arena, a: Matrix, b: Matrix, col: nat, depth: nat): (r: Result<Rational>)
    requires scratch.Valid() && ColumnFor(a, b, col)
    ensures r.Failure? ==> r.code in {InvalidDimension, Overflow, NotSquare}
    ensures r.Success? ==> r.value.Valid()
    decreases depth
  {
    if depth > 0 then DetReplaceColAt(scratch, a, b, col, depth - 1) else DetReplaceColBody(scratch, a, b, col)
  }

  function DetReplaceColBody(scratch: Arena, a: Matrix, b: Matrix, col: nat): (r: Result<Rational>)
    requires scratch.Valid() && ColumnFor(a, b, col)
    ensures r.Failure? ==> r.code in {InvalidDimension, Overflow, NotSquare}
    ensures r.Success? ==> r.value.Valid()
  {
    match ReplaceColumn(EnterScratch(scratch), a, b, col)
    case Failure(e) => Failure(e)
    case Success(w) =>
      var d := Det.DetElim(w.m, NO_TARGET);
      if d.ec != Ok then Failure(d.ec) else Success(d.det.value)
  }

  lemma {:induction false} DetReplaceColDef(scratch: Arena, a: Matrix, b: Matrix, col: nat, depth: nat)
    requires scratch.Valid() && ColumnFor(a, b, col)
    ensures DetReplaceColAt(scratch, a, b, col, depth) == DetReplaceColBody(scratch, a, b, col)
    decreases depth
  {
    if depth > 0 {
      DetReplaceColDef(scratch, a, b, col, depth - 1);
    }
  }

  /** Δ_col is the value op_det_replace_column computes, and fails when it fails. */
  lemma DetReplaceColIsOp(scratch: Arena, a: Matrix, b: Matrix, col: nat)
    requires scratch.Valid() && ColumnFor(a, b, col) && a.rows == a.cols && col < 256
    ensures var r := OpDetReplaceColumn(a, b, col, scratch, NoExplain);
            var d := DetReplaceColOf(scratch, a, b, col);
            (d.Success? <==> r.err.code == Ok) &&
            (d.Success? ==> r.value == Some(d.value)) &&
            (d.Failure? ==> r.err.code == d.code)
  {
    DetReplaceColDef(scratch, a, b, col, a.rows + 1);
  }

  /** Δ of Cramer's rule is the value op_det computes, and fails when op_det fails. */
  lemma DetOfIsOpDet(scratch: Arena, a: Matrix)
    requires scratch.Valid() && Det.Square(a)
    ensures var r := OpDet(a, scratch, NoExplain);
            (DetOf(scratch, a).Success? <==> r.err.code == Ok) &&
            (DetOf(scratch, a).Success? ==> r.value == Some(DetOf(scratch, a).value)) &&
            (DetOf(scratch, a).Failure? ==> r.err.code == DetOf(scratch, a).code)
  {
  }

  /** Row i of x holds Δ_i / Δ. */
  ghost predicate SolvesRow(scratch: Arena, a: Matrix, b: Matrix, delta: Rational, x: Matrix, i: nat)
    requires scratch.Valid() && ColumnFor(a, b, i) && delta.Valid() && !delta.IsZero()
    requires x.Wf() && i < x.rows && x.cols == 1
  {
    ZeroIsZero(delta);
    DetReplaceColOf(scratch, a, b, i).Success? && x.cells[i][0].Valid() &&
    x.cells[i][0].Val() == DetReplaceColOf(scratch, a, b, i).value.Val() / delta.Val()
  }

  /** What op_cramer_solve leaves: the error and x_out, rows written so far included. */
  datatype Solved = Solved(err: Error, x: Matrix)

  /**
   * The column loop of op_cramer_solve: for each col, x_col = Δ_col / Δ,
   * written into x_out as soon as it is known; the first failure ends the
   * loop with A's shape. A finished loop returns the Error last assigned,
   * the default one of det_replace_col_of's success, with no shape in it.
   */
  function CramerFrom(scratch: Arena, a: Matrix, b: Matrix, delta: Rational, x: Matrix, col: nat): (r: Solved)
    requires scratch.Valid() && a.Wf() && b.Wf() && b.rows == a.rows && b.cols == 1
    requires x.Wf() && x.rows == a.rows && x.cols == 1 && col <= a.cols && a.rows == a.cols
    requires delta.Valid() && !delta.IsZero()
    ensures r.x.Wf() && SameDim(r.x, x)
    ensures forall i :: 0 <= i < col ==> r.x.cells[i] == x.cells[i]
    ensures r.err.code in {Ok, InvalidDimension, Overflow, NotSquare}
    ensures r.err.code != Ok ==> r.err == ErrA(r.err.code, a.Dim())
    ensures r.err.code == Ok ==> r.err == NoError
    ensures r.err.code == Ok ==> forall i :: col <= i < a.rows ==> SolvesRow(scratch, a, b, delta, r.x, i)
    decreases a.cols - col
  {
    if col == a.cols then Solved(NoError, x)
    else
      match DetReplaceColOf(scratch, a, b, col)
      case Failure(e) => Solved(ErrA(e, a.Dim()), x)
      case Success(di) =>
        match Div(di, delta)
        case Failure(e) => Solved(ErrA(e, a.Dim()), x)
        case Success(xi) =>
          var x' := x.Set(col, 0, xi);
          RowSolved(scratch, a, b, delta, x, col, xi);
          var r := CramerFrom(scratch, a, b, delta, x', col + 1);
          if r.err.code == Ok then SolvesRowSame(scratch, a, b, delta, x', r.x, col); r else r
  }

  /** Writing Δ_col / Δ into row col solves that row. */
  lemma RowSolved(scratch: Arena, a: Matrix, b: Matrix, delta: Rational, x: Matrix, col: nat, xi: Rational)
    requires scratch.Valid() && ColumnFor(a, b, col) && delta.Valid() && !delta.IsZero()
    requires x.Wf() && x.rows == a.rows && x.cols == 1 && a.rows == a.cols
    requires DetReplaceColOf(scratch, a, b, col).Success?
    requires Div(DetReplaceColOf(scratch, a, b, col).value, delta) == Success(xi)
    ensures SolvesRow(scratch, a, b, delta, x.Set(col, 0, xi), col)
  {
  }

  /** Whether a row is solved depends on that row only. */
  lemma SolvesRowSame(scratch: Arena, a: Matrix, b: Matrix, delta: Rational, x: Matrix, y: Matrix, i: nat)
    requires scratch.Valid() && ColumnFor(a, b, i) && delta.Valid() && !delta.IsZero()
    requires x.Wf() && y.Wf() && i < x.rows && x.cols == 1 && SameDim(x, y) && x.cells[i] == y.cells[i]
    ensures SolvesRow(scratch, a, b, delta, x, i) == SolvesRow(scratch, a, b, delta, y, i)
  {
  }

  /**
   * op_cramer_solve: NotSquare, then DimensionMismatch for b and then for
   * x_out (each with A's shape and the offending one); Δ = det(A) (its
   * error reported with A's shape); Singular when Δ = 0; then the column
   * loop.
   */
  function OpCramerSolve(a: Matrix, b: Matrix, scratch: Arena, x: Matrix): (r: Solved)
    requires a.Wf() && b.Wf() && x.Wf() && scratch.Valid()
    ensures a.rows != a.cols ==> r == Solved(ErrA(NotSquare, a.Dim()), x)
    ensures a.rows == a.cols && (b.rows != a.rows || b.cols != 1) ==>
              r == Solved(ErrAB(DimensionMismatch, a.Dim(), b.Dim()), x)
    ensures a.rows == a.cols && b.rows == a.rows && b.cols == 1 && (x.rows != a.rows || x.cols != 1) ==>
              r == Solved(ErrAB(DimensionMismatch, a.Dim(), x.Dim()), x)
    ensures r.x.Wf() && SameDim(r.x, x)
    ensures r.err.code in {Ok, NotSquare, DimensionMismatch, InvalidDimension, Overflow, Singular}
    // Singular exactly when Δ = 0
    ensures a.rows == a.cols && b.rows == a.rows && b.cols == 1 && x.rows == a.rows && x.cols == 1 ==>
              (r.err.code == Singular <==> DetOf(scratch, a).Success? && DetOf(scratch, a).value.IsZero())
    ensures r.err.code == Singular ==> r == Solved(ErrA(Singular, a.Dim()), x)
    ensures r.err.code in {InvalidDimension, Overflow} ==> r.err == ErrA(r.err.code, a.Dim())
    ensures r.err.code == Ok ==> r.err == NoError
    // x_i = Δ_i / Δ
    ensures r.err.code == Ok ==>
              DetOf(scratch, a).Success? && !DetOf(scratch, a).value.IsZero() &&
              forall i :: 0 <= i < a.rows ==> ColumnFor(a, b, i) && SolvesRow(scratch, a, b, DetOf(scratch, a).value, r.x, i)
  {
    if a.rows != a.cols then Solved(ErrA(NotSquare, a.Dim()), x)
    else if b.rows != a.rows || b.cols != 1 then Solved(ErrAB(DimensionMismatch, a.Dim(), b.Dim()), x)
    else if x.rows != a.rows || x.cols != 1 then Solved(ErrAB(DimensionMismatch, a.Dim(), x.Dim()), x)
    else
      match DetOf(scratch, a)
      case Failure(e) => Solved(ErrA(e, a.Dim()), x)
      case Success(delta) =>
        if delta.IsZero() then Solved(ErrA(Singular, a.Dim()), x)
        else CramerFrom(scratch, a, b, delta, x, 0)
  }
}
