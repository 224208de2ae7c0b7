/**
 * The cross product of two 3-vectors (op_cross, cross_raw and the cross
 * explanation in ops_vector_ondemand.cpp). The result takes u's
 * orientation and is written component by component, so a component that
 * overflows leaves the earlier ones written.
 */
module CrossProduct {

  import opened Errors
  import opened Rationals
  import opened Matrices
  import opened Arenas
  import opened Writers
  import opened Explaining
  import opened Vectors
  import Latex

  /** Two 3-vectors and a 3-vector output slot. */
  predicate CrossArgs(u: Matrix, ui: VecInfo, v: Matrix, vi: VecInfo, out: Matrix, oi: VecInfo) {
    Holds(u, ui) && Holds(v, vi) && Holds(out, oi) && ui.len == 3 && vi.len == 3 && oi.len == 3
  }

  /** The entries component c combines: c1 = u2 v3 - u3 v2, c2 = u3 v1 - u1 v3, c3 = u1 v2 - u2 v1 (0-based). */
  function Left(c: nat): nat { if c == 0 then 1 else if c == 1 then 2 else 0 }
  function Right(c: nat): nat { if c == 0 then 2 else if c == 1 then 0 else 1 }

  /** The components of xs x ys. */
  ghost function CrossVals(xs: seq<real>, ys: seq<real>): (zs: seq<real>)
    requires |xs| == 3 && |ys| == 3
    ensures |zs| == 3
  {
    [xs[1] * ys[2] - xs[2] * ys[1], xs[2] * ys[0] - xs[0] * ys[2], xs[0] * ys[1] - xs[1] * ys[0]]
  }

  /**
   * One component as cross_raw forms it: two products with rational_mul and
   * their difference with rational_sub, the first error ending it. The
   * value is exact.
   */
  function Component(u: Matrix, ui: VecInfo, v: Matrix, vi: VecInfo, c: nat): (r: Result<Rational>)
    requires Holds(u, ui) && Holds(v, vi) && ui.len == 3 && vi.len == 3 && c < 3
    ensures r.Failure? ==> r.code == Overflow
    ensures r.Success? ==> (r.value.Valid() &&
              r.value.Val() == At(u, ui, Left(c)).Val() * At(v, vi, Right(c)).Val()
                             - At(u, ui, Right(c)).Val() * At(v, vi, Left(c)).Val())
  {
    ComponentAt(u, ui, v, vi, c, ui.len)
  }

  /**
   * Component's computation behind a recursion on a depth the solver does
   * not see through, so that callers reason from the contract alone.
   */
  function ComponentAt(u: Matrix, ui: VecInfo, v: Matrix, vi: VecInfo, c: nat, depth: nat): (r: Result<Rational>)
    requires Holds(u, ui) && Holds(v, vi) && ui.len == 3 && vi.len == 3 && c < 3
    ensures r.Failure? ==> r.code == Overflow
    ensures r.Success? ==> (r.value.Valid() &&
              r.value.Val() == At(u, ui, Left(c)).Val() * At(v, vi, Right(c)).Val()
                             - At(u, ui, Right(c)).Val() * At(v, vi, Left(c)).Val())
    decreases depth
  {
    if depth > 0 then ComponentAt(u, ui, v, vi, c, depth - 1)
    else
      var p1 :- Mul(At(u, ui, Left(c)), At(v, vi, Right(c)));
      var p2 :- Mul(At(u, ui, Right(c)), At(v, vi, Left(c)));
      Sub(p1, p2)
  }

  /** The components before c are all computed without overflow. */
  predicate ComputedBefore(u: Matrix, ui: VecInfo, v: Matrix, vi: VecInfo, c: nat)
    requires Holds(u, ui) && Holds(v, vi) && ui.len == 3 && vi.len == 3
  {
    (c >= 1 ==> Component(u, ui, v, vi, 0).Success?) &&
    (c >= 2 ==> Component(u, ui, v, vi, 1).Success?) &&
    (c >= 3 ==> Component(u, ui, v, vi, 2).Success?)
  }

  /** The vector in w is u x v, entry by entry. */
  ghost predicate IsCross(w: Matrix, wi: VecInfo, u: Matrix, ui: VecInfo, v: Matrix, vi: VecInfo)
    requires Holds(w, wi) && Holds(u, ui) && Holds(v, vi) && wi.len == 3 && ui.len == 3 && vi.len == 3
  {
    forall j :: 0 <= j < 3 ==>
      At(w, wi, j).Val() == At(u, ui, Left(j)).Val() * At(v, vi, Right(j)).Val()
                          - At(u, ui, Right(j)).Val() * At(v, vi, Left(j)).Val()
  }

  /**
   * cross_raw: the three components in order, each stored as soon as it is
   * computed; the first error returns. So out receives u x v, exactly, when
   * no component overflows; otherwise the error is Overflow, the components
   * before the first that overflows are written and the rest are left as
   * they were.
   */
  function CrossRaw(u: Matrix, ui: VecInfo, v: Matrix, vi: VecInfo, out: Matrix, oi: VecInfo): (r: Written)
    requires CrossArgs(u, ui, v, vi, out, oi)
    ensures Holds(r.m, oi) && SameDim(r.m, out)
    ensures r.ec == Ok || r.ec == Overflow
    ensures r.ec == Ok <==> ComputedBefore(u, ui, v, vi, 3)
    ensures r.ec == Ok ==> IsCross(r.m, oi, u, ui, v, vi)
  {
    var w0 := WriteComponent(u, ui, v, vi, out, oi, 0);
    if w0.ec != Ok then w0
    else
      var w1 := WriteComponent(u, ui, v, vi, w0.m, oi, 1);
      if w1.ec != Ok then w1
      else
        var w2 := WriteComponent(u, ui, v, vi, w1.m, oi, 2);
        if w2.ec == Ok then
          CrossComponents(u, ui, v, vi, w2.m, oi);
          w2
        else w2
  }

  /**
   * What a failing cross_raw leaves: component j is written exactly when it
   * and every component before it are computed; the others keep what out
   * held.
   */
  lemma CrossRawPartial(u: Matrix, ui: VecInfo, v: Matrix, vi: VecInfo, out: Matrix, oi: VecInfo)
    requires CrossArgs(u, ui, v, vi, out, oi)
    ensures var r := CrossRaw(u, ui, v, vi, out, oi);
            (ComputedBefore(u, ui, v, vi, 1) ==> At(r.m, oi, 0) == Component(u, ui, v, vi, 0).value) &&
            (ComputedBefore(u, ui, v, vi, 2) ==> At(r.m, oi, 1) == Component(u, ui, v, vi, 1).value) &&
            (ComputedBefore(u, ui, v, vi, 3) ==> At(r.m, oi, 2) == Component(u, ui, v, vi, 2).value)
    ensures var r := CrossRaw(u, ui, v, vi, out, oi);
            (!ComputedBefore(u, ui, v, vi, 1) ==> At(r.m, oi, 0) == At(out, oi, 0)) &&
            (!ComputedBefore(u, ui, v, vi, 2) ==> At(r.m, oi, 1) == At(out, oi, 1)) &&
            (!ComputedBefore(u, ui, v, vi, 3) ==> At(r.m, oi, 2) == At(out, oi, 2))
  {
  }

  /** One block of cross_raw: component c is computed and, unless that overflows, stored. */
  function WriteComponent(u: Matrix, ui: VecInfo, v: Matrix, vi: VecInfo, out: Matrix, oi: VecInfo, c: nat): (r: Written)
    requires CrossArgs(u, ui, v, vi, out, oi) && c < 3
    ensures Holds(r.m, oi) && SameDim(r.m, out)
    ensures r.ec == Ok || r.ec == Overflow
    ensures r.ec == Ok <==> Component(u, ui, v, vi, c).Success?
    ensures r.ec != Ok ==> r.m == out
    ensures r.ec == Ok ==> At(r.m, oi, c) == Component(u, ui, v, vi, c).value
    ensures forall j :: 0 <= j < 3 && j != c ==> At(r.m, oi, j) == At(out, oi, j)
  {
    match Component(u, ui, v, vi, c)
    case Failure(e) => Written(out, e)
    case Success(q) => Written(SetAt(out, oi, c, q), Ok)
  }

  /** A vector whose entries are the three computed components is u x v. */
  lemma CrossComponents(u: Matrix, ui: VecInfo, v: Matrix, vi: VecInfo, w: Matrix, wi: VecInfo)
    requires CrossArgs(u, ui, v, vi, w, wi) && ComputedBefore(u, ui, v, vi, 3)
    requires forall j :: 0 <= j < 3 ==> At(w, wi, j) == Component(u, ui, v, vi, j).value
    ensures IsCross(w, wi, u, ui, v, vi)
  {
  }

  /** The value of component c, in terms of the vectors' values. */
  lemma ComponentIsCross(u: Matrix, ui: VecInfo, v: Matrix, vi: VecInfo, q: real, c: nat)
    requires Holds(u, ui) && Holds(v, vi) && ui.len == 3 && vi.len == 3 && c < 3
    requires q == At(u, ui, Left(c)).Val() * At(v, vi, Right(c)).Val() - At(u, ui, Right(c)).Val() * At(v, vi, Left(c)).Val()
    ensures q == CrossVals(Vals(u, ui), Vals(v, vi))[c]
  {
    var xs, ys := Vals(u, ui), Vals(v, vi);
    var a, b, d, e := xs[Left(c)], ys[Right(c)], xs[Right(c)], ys[Left(c)];
    assert q == a * b - d * e;
  }

  /** A vector that is u x v entry by entry has the values of u x v. */
  lemma CrossVector(w: Matrix, wi: VecInfo, u: Matrix, ui: VecInfo, v: Matrix, vi: VecInfo)
    requires Holds(w, wi) && Holds(u, ui) && Holds(v, vi) && wi.len == 3 && ui.len == 3 && vi.len == 3
    requires IsCross(w, wi, u, ui, v, vi)
    ensures Vals(w, wi) == CrossVals(Vals(u, ui), Vals(v, vi))
  {
    ComponentIsCross(u, ui, v, vi, At(w, wi, 0).Val(), 0);
    ComponentIsCross(u, ui, v, vi, At(w, wi, 1).Val(), 1);
    ComponentIsCross(u, ui, v, vi, At(w, wi, 2).Val(), 2);
  }

  /**
   * The cross product is orthogonal to both factors: x . (x cross y) and
   * y . (x cross y) vanish.
   */
  lemma CrossOrthogonal(xs: seq<real>, ys: seq<real>)
    requires |xs| == 3 && |ys| == 3
    ensures Dot(xs, CrossVals(xs, ys)) == 0.0
    ensures Dot(ys, CrossVals(xs, ys)) == 0.0
  {
    var zs := CrossVals(xs, ys);
    DotThree(xs, zs);
    DotThree(ys, zs);
    TripleVanishes(xs[0], xs[1], xs[2], xs[0], xs[1], xs[2], ys[0], ys[1], ys[2]);
    TripleVanishes(ys[0], ys[1], ys[2], xs[0], xs[1], xs[2], ys[0], ys[1], ys[2]);
  }

  /** A three-term dot sum written out. */
  lemma DotThree(xs: seq<real>, zs: seq<real>)
    requires |xs| == 3 && |zs| == 3
    ensures Dot(xs, zs) == xs[0] * zs[0] + xs[1] * zs[1] + xs[2] * zs[2]
  {
    assert DotTail(xs, zs, 3) == 0.0;
    assert DotTail(xs, zs, 2) == Times(xs[2], zs[2]);
    assert DotTail(xs, zs, 1) == Times(xs[1], zs[1]) + Times(xs[2], zs[2]);
    assert DotTail(xs, zs, 0) == Times(xs[0], zs[0]) + DotTail(xs, zs, 1);
  }

  /**
   * The determinant with a repeated row vanishes: c is (a0, a1, a2) or
   * (b0, b1, b2).
   */
  lemma TripleVanishes(c0: real, c1: real, c2: real, a0: real, a1: real, a2: real, b0: real, b1: real, b2: real)
    requires (c0 == a0 && c1 == a1 && c2 == a2) || (c0 == b0 && c1 == b1 && c2 == b2)
    ensures c0 * (a1 * b2 - a2 * b1) + c1 * (a2 * b0 - a0 * b2) + c2 * (a0 * b1 - a1 * b0) == 0.0
  {
    assert c0 * (a1 * b2 - a2 * b1) == c0 * a1 * b2 - c0 * a2 * b1;
    assert c1 * (a2 * b0 - a0 * b2) == c1 * a2 * b0 - c1 * a0 * b2;
    assert c2 * (a0 * b1 - a1 * b0) == c2 * a0 * b1 - c2 * a1 * b0;
  }

  /** Swapping the factors negates the cross product. */
  lemma CrossAnticommutes(xs: seq<real>, ys: seq<real>)
    requires |xs| == 3 && |ys| == 3
    ensures forall c :: 0 <= c < 3 ==> CrossVals(ys, xs)[c] == -CrossVals(xs, ys)[c]
  {
  }

  // ---------------------------------------------------------------------
  // op_cross
  // ---------------------------------------------------------------------

  /** CrossCtx: the operands, the three shapes and the output's dimensions. */
  datatype CrossCtx = CrossCtx(u: Matrix, v: Matrix, ui: VecInfo, vi: VecInfo, oi: VecInfo, outRows: nat, outCols: nat)

  predicate CrossCtxValid(ctx: CrossCtx) {
    Holds(ctx.u, ctx.ui) && Holds(ctx.v, ctx.vi) && ctx.ui.len == 3 && ctx.vi.len == 3 &&
    ctx.oi == ctx.ui && ctx.outRows == ctx.u.rows && ctx.outCols == ctx.u.cols
  }

  /**
   * sizeof(CrossCtx) and alignof(CrossCtx) on an LP64 host: two views,
   * three two-byte shapes padded to 40, and the output view.
   */
  const CROSS_CTX_SIZE: nat := 56
  const CROSS_CTX_ALIGN: nat := 8

  /** What op_cross leaves: the error, the out view, the persist arena and the context. */
  datatype CrossResult = CrossResult(err: Error, out: Matrix, persist: Option<Arena>, ctx: Option<CrossCtx>)

  /**
   * op_cross: u's shape (InvalidDimension with u's shape), v's shape
   * (InvalidDimension with v's shape in the second slot only), lengths
   * other than 3 (InvalidDimension with both shapes), out not shaped like u
   * (DimensionMismatch); then cross_raw with u's orientation, whose error is
   * reported without shapes; then the explanation, if asked for.
   */
  function OpCross(u: Matrix, v: Matrix, out: Matrix, opts: Options): (r: CrossResult)
    requires u.Wf() && v.Wf() && out.Wf() && OptionsValid(opts)
    ensures !IsVector(u) ==> r == CrossResult(ErrA(InvalidDimension, u.Dim()), out, opts.persist, None)
    ensures IsVector(u) && !IsVector(v) ==>
              r == CrossResult(Error(InvalidDimension, NoDim, v.Dim(), 0, 0), out, opts.persist, None)
    ensures IsVector(u) && IsVector(v) && (Info(u).len != 3 || Info(v).len != 3) ==>
              r == CrossResult(ErrAB(InvalidDimension, u.Dim(), v.Dim()), out, opts.persist, None)
    ensures IsVector(u) && IsVector(v) && Info(u).len == 3 && Info(v).len == 3 && !SameDim(out, u) ==>
              r == CrossResult(ErrAB(DimensionMismatch, u.Dim(), out.Dim()), out, opts.persist, None)
    ensures r.err.code in {Ok, InvalidDimension, DimensionMismatch, Overflow, Internal}
    ensures r.err.code in {Ok, Internal} ==>
              IsVector(u) && IsVector(v) && Info(u).len == 3 && Info(v).len == 3 &&
              SameDim(r.out, u) && Holds(r.out, Info(u)) && IsCross(r.out, Info(u), u, Info(u), v, Info(v))
    ensures r.ctx.Some? <==> r.err.code == Ok && opts.enable
    ensures r.ctx.Some? ==> r.ctx.value == CrossCtx(u, v, Info(u), Info(v), Info(u), u.rows, u.cols) &&
                            CrossCtxValid(r.ctx.value)
  {
    match VecInfoOf(u)
    case Failure(e) => CrossResult(ErrA(e, u.Dim()), out, opts.persist, None)
    case Success(ui) =>
      match VecInfoOf(v)
      case Failure(e) => CrossResult(Error(e, NoDim, v.Dim(), 0, 0), out, opts.persist, None)
      case Success(vi) =>
        if ui.len != 3 || vi.len != 3 then CrossResult(ErrAB(InvalidDimension, u.Dim(), v.Dim()), out, opts.persist, None)
        else if u.rows != out.rows || u.cols != out.cols then
          CrossResult(ErrAB(DimensionMismatch, u.Dim(), out.Dim()), out, opts.persist, None)
        else
          var oi := ui;
          var w := CrossRaw(u, ui, v, vi, out, oi);
          if w.ec != Ok then CrossResult(ErrCode(w.ec), w.m, opts.persist, None)
          else
            var p := Persist(opts, CROSS_CTX_SIZE, CROSS_CTX_ALIGN);
            var ctx := if p.ec == Ok && opts.enable then Some(CrossCtx(u, v, ui, vi, oi, out.rows, out.cols)) else None;
            CrossResult(ErrCode(p.ec), w.m, p.persist, ctx)
  }

  /**
   * The cross product op_cross writes is orthogonal to both operands.
   */
  lemma OpCrossOrthogonal(u: Matrix, v: Matrix, out: Matrix, opts: Options)
    requires u.Wf() && v.Wf() && out.Wf() && OptionsValid(opts)
    requires OpCross(u, v, out, opts).err.code in {Ok, Internal}
    ensures var r := OpCross(u, v, out, opts);
            Dot(Vals(u, Info(u)), Vals(r.out, Info(u))) == 0.0 &&
            Dot(Vals(v, Info(v)), Vals(r.out, Info(u))) == 0.0
  {
    var r := OpCross(u, v, out, opts);
    CrossVector(r.out, Info(u), u, Info(u), v, Info(v));
    CrossOrthogonal(Vals(u, Info(u)), Vals(v, Info(v)));
  }

  // ---------------------------------------------------------------------
  // The cross explanation
  // ---------------------------------------------------------------------

  /** cross_step_count: the formula, then the result. */
  function CrossStepCount(ctx: CrossCtx): (n: nat)
    ensures n == 2
  {
    2
  }

  const CROSS_FORMULA := "$$u\\times v = \\begin{bmatrix}u_2 v_3 - u_3 v_2 \\\\ u_3 v_1 - u_1 v_3 \\\\ u_1 v_2 - u_2 v_1\\end{bmatrix}$$"
  const CROSS_CAPTION := "$u\\times v$"

  /**
   * cross_render_step: StepOutOfRange from 2 on, then Internal without a
   * scratch arena; both buffers are emptied. Step 0 is the formula; step 1
   * allocates a matrix of the output's shape in scratch (its error ends
   * the step), recomputes u x v into it (an overflow ends the step) and
   * shows it under the caption "$u\times v$".
   */
  function CrossRender(ctx: CrossCtx, index: nat, out: Buffers): (r: Rendered)
    requires CrossCtxValid(ctx) && BuffersValid(out)
    ensures index >= CrossStepCount(ctx) ==> r == Nothing(StepOutOfRange)
    ensures index < CrossStepCount(ctx) && out.scratch.None? ==> r == Nothing(Internal)
    ensures index == 0 && out.scratch.Some? ==> r == WithLatex([], Append(Fresh(out.latexCap), CROSS_FORMULA))
    ensures r.caption != [] ==> index == 1 && out.caption.Some?
  {
    if index >= 2 then Nothing(StepOutOfRange)
    else if out.scratch.None? then Nothing(Internal)
    else if index == 0 then WithLatex([], Append(Fresh(out.latexCap), CROSS_FORMULA))
    else
      match Alloc(out.scratch.value, ctx.outRows, ctx.outCols, false)
      case Failure(e) => Nothing(e)
      case Success(tmp) =>
        var w := CrossRaw(ctx.u, ctx.ui, ctx.v, ctx.vi, tmp.m, ctx.oi);
        if w.ec != Ok then Nothing(w.ec)
        else CaptionedVector(CROSS_CAPTION, out, w.m)
  }

  /**
   * The explanation op_cross stores shows, in its second step, the very
   * matrix op_cross wrote to out, whenever the scratch arena has room for
   * it.
   */
  lemma OpCrossExplained(u: Matrix, v: Matrix, out: Matrix, opts: Options, bufs: Buffers)
    requires u.Wf() && v.Wf() && out.Wf() && OptionsValid(opts) && BuffersValid(bufs)
    requires OpCross(u, v, out, opts).ctx.Some?
    requires bufs.scratch.Some? && Alloc(bufs.scratch.value, u.rows, u.cols, false).Success?
    ensures var r := OpCross(u, v, out, opts);
            CrossRender(r.ctx.value, 1, bufs) == CaptionedVector(CROSS_CAPTION, bufs, r.out)
  {
    var r := OpCross(u, v, out, opts);
    var ctx := r.ctx.value;
    var tmp := Alloc(bufs.scratch.value, u.rows, u.cols, false).value;
    var w := CrossRaw(ctx.u, ctx.ui, ctx.v, ctx.vi, tmp.m, ctx.oi);
    assert w.ec == Ok;
    CrossVector(w.m, ctx.ui, u, ctx.ui, v, ctx.vi);
    CrossVector(r.out, ctx.ui, u, ctx.ui, v, ctx.vi);
    VectorsEqual(w.m, r.out, ctx.ui);
  }
}
