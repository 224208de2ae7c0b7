/**
 * The plain matrix operations with explanations (ops_basic_view.cpp):
 * op_add, op_sub and op_mul write A + B, A - B or A B into out and record
 * a two-step explanation (the formula, then the result); op_transpose
 * writes the transpose and records the input and the result.
 */
module BasicOps {

  import opened Errors
  import opened Matrices
  import opened Arenas
  import opened Writers
  import opened Explaining
  import Latex

  // ---------------------------------------------------------------------
  // op_add, op_sub, op_mul
  // ---------------------------------------------------------------------

  /**
   * BinaryCtx: the operands, the result as written and the operator
   * character ('+', '-' or '*').
   */
  datatype BinaryCtx = BinaryCtx(a: Matrix, b: Matrix, result: Matrix, op: char)

  predicate BinaryCtxValid(ctx: BinaryCtx) {
    ctx.a.Wf() && ctx.b.Wf() && ctx.result.Wf()
  }

  /**
   * sizeof(BinaryCtx) and alignof(BinaryCtx) on an LP64 host: three
   * 16-byte views and a char, padded to 8.
   */
  const BINARY_CTX_SIZE: nat := 56
  const BINARY_CTX_ALIGN: nat := 8

  /** The character op_add, op_sub and op_mul store for their kernel. */
  function OpChar(op: EntryOp): (c: char)
    ensures c in {'+', '-', '*'}
  {
    match op
    case AddEntries => '+'
    case SubEntries => '-'
    case MulEntries => '*'
  }

  /** matrix_add, matrix_sub or matrix_mul. */
  function Kernel(op: EntryOp, a: Matrix, b: Matrix, out: Matrix): (w: Written)
    requires a.Wf() && b.Wf() && out.Wf()
    ensures w.m.Wf() && SameDim(w.m, out)
    ensures w.ec == DimensionMismatch <==> !Shapes(op, a, b, out)
    ensures w.ec == Ok || w.ec == Overflow || w.ec == DimensionMismatch
  {
    match op
    case AddEntries => MatrixAdd(a, b, out)
    case SubEntries => MatrixSub(a, b, out)
    case MulEntries => MatrixMul(a, b, out)
  }

  /** What a basic operation leaves: the error, the out matrix, the persist arena and the context. */
  datatype BasicOut<C> = BasicOut(err: Error, out: Matrix, persist: Option<Arena>, ctx: Option<C>)

  /**
   * op_add / op_sub / op_mul: the kernel runs first and writes out; its
   * error is reported with both operand shapes. Only then are the
   * explanation options looked at, so an Internal or Overflow from storing
   * the context comes with out already written.
   */
  function OpBinary(op: EntryOp, a: Matrix, b: Matrix, out: Matrix, opts: Options): (r: BasicOut<BinaryCtx>)
    requires a.Wf() && b.Wf() && out.Wf() && OptionsValid(opts)
    ensures r.out == Kernel(op, a, b, out).m
    ensures Kernel(op, a, b, out).ec != Ok ==>
              r.err == ErrAB(Kernel(op, a, b, out).ec, a.Dim(), b.Dim()) && r.ctx.None? && r.persist == opts.persist
    ensures Kernel(op, a, b, out).ec == Ok ==> r.err == ErrCode(Persist(opts, BINARY_CTX_SIZE, BINARY_CTX_ALIGN).ec)
    ensures r.err.code in {Ok, DimensionMismatch, Overflow, Internal}
    ensures r.ctx.Some? <==> r.err.code == Ok && opts.enable
    ensures r.ctx.Some? ==> r.ctx.value == BinaryCtx(a, b, r.out, OpChar(op)) && BinaryCtxValid(r.ctx.value)
  {
    var w := Kernel(op, a, b, out);
    if w.ec != Ok then BasicOut(ErrAB(w.ec, a.Dim(), b.Dim()), w.m, opts.persist, None)
    else
      var p := Persist(opts, BINARY_CTX_SIZE, BINARY_CTX_ALIGN);
      var ctx := if p.ec == Ok && opts.enable then Some(BinaryCtx(a, b, w.m, OpChar(op))) else None;
      BasicOut(ErrCode(p.ec), w.m, p.persist, ctx)
  }

  /** binary_step_count: the formula, then the result. */
  function BinaryStepCount(ctx: BinaryCtx): (n: nat)
    ensures n == 2
  {
    2
  }

  /** The LaTeX of each operator, with its spaces. */
  function OpSymbol(c: char): (s: Option<string>)
    ensures s.Some? <==> c in {'+', '-', '*'}
  {
    if c == '+' then Some(" + ")
    else if c == '-' then Some(" - ")
    else if c == '*' then Some(" \\cdot ")
    else None
  }

  /** The formula step for a known operator: "$$C = A + B$$" and the like. */
  function FormulaText(c: char): (s: string)
    requires c in {'+', '-', '*'}
  {
    "$$C = A" + OpSymbol(c).value + "B$$"
  }

  /**
   * binary_render_step: StepOutOfRange from 2 on; both buffers are
   * emptied. Step 0 writes "$$C = A", the operator and "B$$", an unknown
   * operator character stopping with Internal after the first append;
   * step 1 shows the result as a bmatrix display. No scratch arena is
   * needed.
   */
  function BinaryRender(ctx: BinaryCtx, index: nat, out: Buffers): (r: Rendered)
    requires BinaryCtxValid(ctx)
    ensures index >= BinaryStepCount(ctx) ==> r == Nothing(StepOutOfRange)
    ensures index == 0 && ctx.op in {'+', '-', '*'} ==>
              r == WithLatex([], Append(Fresh(out.latexCap), FormulaText(ctx.op)))
    ensures index == 0 && ctx.op !in {'+', '-', '*'} ==> r.ec in {Internal, BufferTooSmall}
    ensures index == 1 ==> r == WithLatex([], Latex.WriteMatrixDisplay(ctx.result, Latex.BMatrix, out.latexCap))
    ensures r.caption == []
  {
    if index >= 2 then Nothing(StepOutOfRange)
    else if index == 0 then
      var w := Fresh(out.latexCap);
      var e1 := Append(w, "$$C = A");
      if e1.ec != Ok then WithLatex([], e1)
      else
        match OpSymbol(ctx.op)
        case None => Rendered(Internal, [], e1.w.text)
        case Some(sym) =>
          AppendChain(w, "$$C = A", sym);
          AppendChain(w, "$$C = A" + sym, "B$$");
          WithLatex([], AppendThen(Append(e1.w, sym), "B$$"))
    else WithLatex([], Latex.WriteMatrixDisplay(ctx.result, Latex.BMatrix, out.latexCap))
  }

  /** The three formulas, spelled out. */
  lemma FormulaTexts()
    ensures FormulaText('+') == "$$C = A + B$$"
    ensures FormulaText('-') == "$$C = A - B$$"
    ensures FormulaText('*') == "$$C = A \\cdot B$$"
  {
    assert "$$C = A" + " + " + "B$$" == "$$C = A + B$$";
    assert "$$C = A" + " - " + "B$$" == "$$C = A - B$$";
    assert "$$C = A" + " \\cdot " + "B$$" == "$$C = A \\cdot B$$";
  }

  /**
   * The explanation of a successful op_add / op_sub / op_mul: step 0 is
   * exactly "$$C = A + B$$", "$$C = A - B$$" or "$$C = A \cdot B$$" and
   * step 1 shows the very matrix written to out, which holds the sum,
   * difference or product.
   */
  lemma OpBinaryExplained(op: EntryOp, a: Matrix, b: Matrix, out: Matrix, opts: Options, bufs: Buffers)
    requires a.Wf() && b.Wf() && out.Wf() && OptionsValid(opts)
    requires OpBinary(op, a, b, out, opts).ctx.Some?
    ensures var r := OpBinary(op, a, b, out, opts);
            BinaryRender(r.ctx.value, 1, bufs) == WithLatex([], Latex.WriteMatrixDisplay(r.out, Latex.BMatrix, bufs.latexCap))
    ensures var r := OpBinary(op, a, b, out, opts);
            op == AddEntries ==>
              BinaryRender(r.ctx.value, 0, bufs) == WithLatex([], Append(Fresh(bufs.latexCap), "$$C = A + B$$")) &&
              r.out == MatrixAdd(a, b, out).m && MatrixAdd(a, b, out).ec == Ok
    ensures var r := OpBinary(op, a, b, out, opts);
            op == SubEntries ==>
              BinaryRender(r.ctx.value, 0, bufs) == WithLatex([], Append(Fresh(bufs.latexCap), "$$C = A - B$$")) &&
              r.out == MatrixSub(a, b, out).m && MatrixSub(a, b, out).ec == Ok
    ensures var r := OpBinary(op, a, b, out, opts);
            op == MulEntries ==>
              BinaryRender(r.ctx.value, 0, bufs) == WithLatex([], Append(Fresh(bufs.latexCap), "$$C = A \\cdot B$$")) &&
              r.out == MatrixMul(a, b, out).m && MatrixMul(a, b, out).ec == Ok
  {
    FormulaTexts();
  }

  // ---------------------------------------------------------------------
  // op_transpose
  // ---------------------------------------------------------------------

  /** UnaryCtx: the input and the result as written. */
  datatype UnaryCtx = UnaryCtx(a: Matrix, result: Matrix)

  predicate UnaryCtxValid(ctx: UnaryCtx) {
    ctx.a.Wf() && ctx.result.Wf()
  }

  /** sizeof(UnaryCtx) and alignof(UnaryCtx) on an LP64 host: two 16-byte views. */
  const UNARY_CTX_SIZE: nat := 32
  const UNARY_CTX_ALIGN: nat := 8

  /**
   * op_transpose: matrix_transpose first (its error reported with a's
   * shape), then, as for the binary operations, the explanation options.
   */
  function OpTranspose(a: Matrix, out: Matrix, opts: Options): (r: BasicOut<UnaryCtx>)
    requires a.Wf() && out.Wf() && OptionsValid(opts)
    ensures !(out.rows == a.cols && out.cols == a.rows) ==>
              r == BasicOut(ErrA(DimensionMismatch, a.Dim()), out, opts.persist, None)
    ensures out.rows == a.cols && out.cols == a.rows ==>
              r.out == Transposed(a) && r.err == ErrCode(Persist(opts, UNARY_CTX_SIZE, UNARY_CTX_ALIGN).ec)
    ensures r.err.code in {Ok, DimensionMismatch, Overflow, Internal}
    ensures r.ctx.Some? <==> r.err.code == Ok && opts.enable
    ensures r.ctx.Some? ==> r.ctx.value == UnaryCtx(a, Transposed(a)) && UnaryCtxValid(r.ctx.value)
  {
    var w := MatrixTranspose(a, out);
    if w.ec != Ok then BasicOut(ErrA(w.ec, a.Dim()), w.m, opts.persist, None)
    else
      var p := Persist(opts, UNARY_CTX_SIZE, UNARY_CTX_ALIGN);
      var ctx := if p.ec == Ok && opts.enable then Some(UnaryCtx(a, w.m)) else None;
      BasicOut(ErrCode(p.ec), w.m, p.persist, ctx)
  }

  /** unary_step_count: the input, then the result. */
  function UnaryStepCount(ctx: UnaryCtx): (n: nat)
    ensures n == 2
  {
    2
  }

  /**
   * unary_render_step: StepOutOfRange from 2 on; both buffers are
   * emptied; step 0 shows the input, step 1 the result, as bmatrix
   * displays.
   */
  function UnaryRender(ctx: UnaryCtx, index: nat, out: Buffers): (r: Rendered)
    requires UnaryCtxValid(ctx)
    ensures index >= UnaryStepCount(ctx) ==> r == Nothing(StepOutOfRange)
    ensures index == 0 ==> r == WithLatex([], Latex.WriteMatrixDisplay(ctx.a, Latex.BMatrix, out.latexCap))
    ensures index == 1 ==> r == WithLatex([], Latex.WriteMatrixDisplay(ctx.result, Latex.BMatrix, out.latexCap))
  {
    if index >= 2 then Nothing(StepOutOfRange)
    else if index == 0 then WithLatex([], Latex.WriteMatrixDisplay(ctx.a, Latex.BMatrix, out.latexCap))
    else WithLatex([], Latex.WriteMatrixDisplay(ctx.result, Latex.BMatrix, out.latexCap))
  }

  /**
   * The explanation of op_transpose shows A and then its transpose; and
   * transposing the result again gives A back.
   */
  lemma OpTransposeExplained(a: Matrix, out: Matrix, opts: Options, bufs: Buffers)
    requires a.Wf() && out.Wf() && OptionsValid(opts)
    requires OpTranspose(a, out, opts).ctx.Some?
    ensures var r := OpTranspose(a, out, opts);
            UnaryRender(r.ctx.value, 0, bufs) == WithLatex([], Latex.WriteMatrixDisplay(a, Latex.BMatrix, bufs.latexCap)) &&
            UnaryRender(r.ctx.value, 1, bufs) == WithLatex([], Latex.WriteMatrixDisplay(r.out, Latex.BMatrix, bufs.latexCap)) &&
            Transposed(r.out) == a
  {
    TransposeInvolution(a);
  }
}
