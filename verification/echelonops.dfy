/**
 * Row echelon and reduced row echelon form as an operation
 * (ops_rref_ondemand.cpp): op_echelon copies A into out and reduces it in
 * place with echelon_apply; its explanation replays the reduction on a
 * scratch clone, stopping after the requested number of ops.
 */
module EchelonOps {

  import opened Errors
  import opened Matrices
  import opened RowOps
  import opened Kernels
  import opened Arenas
  import opened Explaining
  import Echelon
  import EchelonForm
  import Spaces
  import Latex
  import DetOps

  /** EchelonCtx: the input, the kind and the number of ops of the full run. */
  datatype EchelonCtx = EchelonCtx(input: Matrix, kind: Echelon.EchelonKind, opCount: nat)

  /**
   * sizeof(EchelonCtx) and alignof(EchelonCtx) on an LP64 host: a 16-byte
   * view, a one-byte kind padded to 8, and a size_t.
   */
  const ECHELON_CTX_SIZE: nat := 32
  const ECHELON_CTX_ALIGN: nat := 8

  /** What op_echelon leaves: the error, the out view, the persist arena and the context. */
  datatype EchelonOut = EchelonOut(err: Error, out: Matrix, persist: Option<Arena>, ctx: Option<EchelonCtx>)

  /**
   * op_echelon(a, kind, out, expl, opts): DimensionMismatch unless out has
   * a's shape; then a is copied into out and out is reduced in place with an
   * observer whose target is never reached. An overflow is reported with
   * a's shape and leaves out as far as the reduction got; otherwise the
   * explanation, if asked for, is stored.
   */
  function OpEchelon(a: Matrix, kind: Echelon.EchelonKind, out: Matrix, opts: Options): (r: EchelonOut)
    requires a.Wf() && out.Wf() && OptionsValid(opts)
    ensures !SameDim(out, a) ==> r == EchelonOut(ErrAB(DimensionMismatch, a.Dim(), out.Dim()), out, opts.persist, None)
    ensures r.err.code in {Ok, DimensionMismatch, Overflow, Internal}
    ensures SameDim(out, a) ==> r.out.Wf() && SameDim(r.out, a)
    ensures r.ctx.Some? ==> r.err.code == Ok && opts.enable && r.ctx.value.input == a && r.ctx.value.kind == kind
    ensures r.err.code == Ok ==> (r.ctx.Some? <==> opts.enable)
  {
    if out.rows != a.rows || out.cols != a.cols then
      EchelonOut(ErrAB(DimensionMismatch, a.Dim(), out.Dim()), out, opts.persist, None)
    else
      var copied := Copy(a, out).value;
      var run := Echelon.EchelonApply(copied, kind, Some(NewObserver(NO_TARGET)));
      if run.flow.Fail? then EchelonOut(ErrA(run.flow.code, a.Dim()), run.s.m, opts.persist, None)
      else
        var p := Persist(opts, ECHELON_CTX_SIZE, ECHELON_CTX_ALIGN);
        var ctx := if p.ec == Ok && opts.enable then Some(EchelonCtx(a, kind, |run.s.trace|)) else None;
        EchelonOut(DetOps.Epilogue(p), run.s.m, p.persist, ctx)
  }

  /**
   * op_echelon in terms of the unobserved run of echelon_apply on A: out is
   * the matrix that run ends with (overflow or not); its overflow is the
   * error, reported with A's shape, and nothing is stored. When it
   * completes, out is what replaying its ops on A gives, the error is the
   * explanation epilogue's, and a stored explanation counts those ops.
   */
  lemma OpEchelonCorrect(a: Matrix, kind: Echelon.EchelonKind, out: Matrix, opts: Options)
    requires a.Wf() && out.Wf() && OptionsValid(opts) && SameDim(out, a)
    ensures var full := Echelon.EchelonApply(a, kind, None);
            var r := OpEchelon(a, kind, out, opts);
            r.out == full.s.m &&
            (full.flow.Fail? ==> r.err == ErrA(Overflow, a.Dim()) && r.ctx.None? && r.persist == opts.persist) &&
            (!full.flow.Fail? ==>
               r.err == DetOps.Epilogue(Persist(opts, ECHELON_CTX_SIZE, ECHELON_CTX_ALIGN)) &&
               Replay(a, full.s.trace) == Written(r.out, Ok) &&
               (r.ctx.Some? ==> r.ctx.value.opCount == |full.s.trace|))
  {
    Echelon.EchelonNoTarget(a, kind);
  }

  /**
   * What op_echelon leaves in out: whenever the reduction does not overflow,
   * out is in reduced row echelon form (RREF) or in row echelon form with
   * positive leading entries (REF), whatever happens to the explanation.
   */
  lemma OpEchelonShape(a: Matrix, kind: Echelon.EchelonKind, out: Matrix, opts: Options)
    requires a.Wf() && out.Wf() && OptionsValid(opts) && SameDim(out, a)
    ensures var r := OpEchelon(a, kind, out, opts);
            !Echelon.EchelonApply(a, kind, None).flow.Fail? || r.err.code == Ok ==>
              r.out.Wf() && r.out.cols == a.cols &&
              (kind == Echelon.Rref ==> Spaces.Reduced(r.out, a.cols)) &&
              (kind == Echelon.Ref ==> EchelonForm.RowEchelon(r.out))
  {
    OpEchelonCorrect(a, kind, out, opts);
    if kind == Echelon.Rref {
      EchelonForm.RrefReduced(a, None);
    } else {
      EchelonForm.RefEchelon(a, None);
    }
  }

  // ---------------------------------------------------------------------
  // The explanation
  // ---------------------------------------------------------------------

  /** echelon_step_count: the input, then one step per op. */
  function EchelonStepCount(ctx: EchelonCtx): (n: nat)
    ensures n >= 1 && n - 1 == ctx.opCount
  {
    ctx.opCount + 1
  }

  /**
   * echelon_render_step: Internal without a scratch arena; both buffers are
   * emptied; step 0 shows the input. Step k clones the input into scratch
   * (its error ends the step), reruns echelon_apply with an observer
   * stopping after k ops (its error ends the step; a run that ends with
   * fewer ops is StepOutOfRange), captions the k-th op when there is a
   * caption buffer and shows the matrix at that point. The step count is
   * never consulted.
   */
  function EchelonRender(ctx: EchelonCtx, index: nat, out: Buffers): (r: Rendered)
    requires ctx.input.Wf() && BuffersValid(out)
    ensures out.scratch.None? ==> r == Nothing(Internal)
    ensures out.scratch.Some? && index == 0 ==>
              r == WithLatex([], Latex.WriteMatrixDisplay(ctx.input, Latex.BMatrix, out.latexCap))
    ensures r.ec in {Ok, Internal, InvalidDimension, Overflow, StepOutOfRange, BufferTooSmall}
    ensures r.caption != [] ==> index > 0 && out.caption.Some?
  {
    if out.scratch.None? then Nothing(Internal)
    else if index == 0 then WithLatex([], Latex.WriteMatrixDisplay(ctx.input, Latex.BMatrix, out.latexCap))
    else
      match Clone(out.scratch.value, ctx.input)
      case Failure(e) => Nothing(e)
      case Success(work) =>
        var run := Echelon.EchelonApply(work.m, ctx.kind, Some(NewObserver(index)));
        if run.flow.Fail? then Nothing(run.flow.code)
        else if |run.s.trace| < index then Nothing(StepOutOfRange)
        else
          var last := run.s.obs.value.lastOp;
          assert last == run.s.trace[|run.s.trace| - 1];
          assert last.FitsIn(work.m);
          DetOps.Captioned(last, out, run.s.m, Latex.BMatrix)
  }

  /** Step k >= 1 in terms of the observed run that stops after k ops. */
  lemma EchelonRenderOf(ctx: EchelonCtx, k: nat, out: Buffers, run: Run)
    requires ctx.input.Wf() && BuffersValid(out) && k >= 1
    requires out.scratch.Some? && Clone(out.scratch.value, ctx.input).Success?
    requires run == Echelon.EchelonApply(ctx.input, ctx.kind, Some(NewObserver(k)))
    ensures run.flow.Fail? ==> EchelonRender(ctx, k, out) == Nothing(run.flow.code)
    ensures !run.flow.Fail? && |run.s.trace| < k ==> EchelonRender(ctx, k, out) == Nothing(StepOutOfRange)
    ensures !run.flow.Fail? && |run.s.trace| >= k ==>
              |run.s.trace| >= 1 && run.s.trace[|run.s.trace| - 1].FitsIn(ctx.input) &&
              EchelonRender(ctx, k, out) ==
                DetOps.Captioned(run.s.trace[|run.s.trace| - 1], out, run.s.m, Latex.BMatrix)
  {
  }

  /**
   * Step k >= 1 of an echelon explanation, in terms of the unobserved run on
   * the input (which must fit in the scratch arena): when that run applies
   * at least k ops, the step captions its k-th op and shows what its first
   * k ops make of the input; when it applies fewer, the step fails with
   * the run's overflow, or StepOutOfRange when the run completed, and
   * writes nothing. The step count itself is not checked.
   */
  lemma EchelonRenderStep(ctx: EchelonCtx, k: nat, out: Buffers)
    requires ctx.input.Wf() && BuffersValid(out) && k >= 1
    requires out.scratch.Some? && Clone(out.scratch.value, ctx.input).Success?
    ensures var full := Echelon.EchelonApply(ctx.input, ctx.kind, None);
            |full.s.trace| >= k ==>
              AllFit(full.s.trace[..k], ctx.input) && full.s.trace[k - 1].Wf() &&
              Replay(ctx.input, full.s.trace[..k]).ec == Ok &&
              EchelonRender(ctx, k, out) ==
                DetOps.Captioned(full.s.trace[k - 1], out, Replay(ctx.input, full.s.trace[..k]).m, Latex.BMatrix)
    ensures var full := Echelon.EchelonApply(ctx.input, ctx.kind, None);
            |full.s.trace| < k ==>
              EchelonRender(ctx, k, out) == Nothing(if full.flow.Fail? then full.flow.code else StepOutOfRange)
  {
    var full := Echelon.EchelonApply(ctx.input, ctx.kind, None);
    if |full.s.trace| >= k {
      EchelonRenderWithin(ctx, k, out);
    } else {
      EchelonRenderBeyond(ctx, k, out);
    }
  }

  /** A step within the unobserved run's trace captions that op. */
  lemma EchelonRenderWithin(ctx: EchelonCtx, k: nat, out: Buffers)
    requires ctx.input.Wf() && BuffersValid(out) && k >= 1
    requires out.scratch.Some? && Clone(out.scratch.value, ctx.input).Success?
    requires |Echelon.EchelonApply(ctx.input, ctx.kind, None).s.trace| >= k
    ensures var full := Echelon.EchelonApply(ctx.input, ctx.kind, None);
            AllFit(full.s.trace[..k], ctx.input) && full.s.trace[k - 1].Wf() &&
            Replay(ctx.input, full.s.trace[..k]).ec == Ok &&
            EchelonRender(ctx, k, out) ==
              DetOps.Captioned(full.s.trace[k - 1], out, Replay(ctx.input, full.s.trace[..k]).m, Latex.BMatrix)
  {
    var full := Echelon.EchelonApply(ctx.input, ctx.kind, None);
    var run := Echelon.EchelonApply(ctx.input, ctx.kind, Some(NewObserver(k)));
    EchelonRenderOf(ctx, k, out, run);
    Echelon.EchelonCut(ctx.input, ctx.kind, k);
    CutDef(run, full, k);
    assert run.s.trace == full.s.trace[..k];
    assert run.s.trace[k - 1] == full.s.trace[k - 1];
  }

  /** A step past the unobserved run's trace reports its failure, or StepOutOfRange. */
  lemma EchelonRenderBeyond(ctx: EchelonCtx, k: nat, out: Buffers)
    requires ctx.input.Wf() && BuffersValid(out) && k >= 1
    requires out.scratch.Some? && Clone(out.scratch.value, ctx.input).Success?
    requires |Echelon.EchelonApply(ctx.input, ctx.kind, None).s.trace| < k
    ensures var full := Echelon.EchelonApply(ctx.input, ctx.kind, None);
            EchelonRender(ctx, k, out) == Nothing(if full.flow.Fail? then full.flow.code else StepOutOfRange)
  {
    var full := Echelon.EchelonApply(ctx.input, ctx.kind, None);
    var run := Echelon.EchelonApply(ctx.input, ctx.kind, Some(NewObserver(k)));
    EchelonRenderOf(ctx, k, out, run);
    Echelon.EchelonCut(ctx.input, ctx.kind, k);
    CutDef(run, full, k);
  }
}
