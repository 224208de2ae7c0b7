/**
 * Vector operations on 1 x n and n x 1 matrices (ops_vector_ondemand.cpp):
 * the dot product, the cross product of two 3-vectors and the
 * decomposition of u into its projection onto v and the orthogonal
 * remainder, each with an explanation rendered on demand.
 */
module Vectors {

  import opened Errors
  import opened Int64
  import opened Rationals
  import opened Matrices
  import opened Arenas
  import opened Writers
  import opened Explaining
  import Latex

  // ---------------------------------------------------------------------
  // Vectors as matrices
  // ---------------------------------------------------------------------

  /** VecInfo: the length and whether the entries run along row 0 (else down column 0). */
  datatype VecInfo = VecInfo(len: nat, isRow: bool)

  /** The matrix holds a vector of that length in that orientation. */
  predicate Holds(m: Matrix, vi: VecInfo) {
    m.Wf() &&
    (vi.isRow ==> m.rows >= 1 && vi.len <= m.cols) &&
    (!vi.isRow ==> m.cols >= 1 && vi.len <= m.rows)
  }

  /**
   * vec_info: a matrix with one row and at least one column is a row
   * vector (so a 1 x 1 matrix is a row vector), else one with one column
   * and at least one row is a column vector, else InvalidDimension.
   */
  function VecInfoOf(m: Matrix): (r: Result<VecInfo>)
    requires m.Wf()
    ensures r.Success? <==> (m.rows == 1 && m.cols >= 1) || (m.cols == 1 && m.rows >= 1)
    ensures r.Failure? ==> r.code == InvalidDimension
    ensures r.Success? ==> Holds(m, r.value) && r.value.len >= 1
    ensures r.Success? ==> r.value.len == (if r.value.isRow then m.cols else m.rows)
    ensures r.Success? ==> (r.value.isRow <==> m.rows == 1)
  {
    if m.rows == 1 && m.cols >= 1 then Success(VecInfo(m.cols, true))
    else if m.cols == 1 && m.rows >= 1 then Success(VecInfo(m.rows, false))
    else Failure(InvalidDimension)
  }

  /** vec_at: entry i of the vector. */
  function At(m: Matrix, vi: VecInfo, i: nat): (q: Rational)
    requires Holds(m, vi) && i < vi.len
    ensures q.Valid()
  {
    if vi.isRow then m.cells[0][i] else m.cells[i][0]
  }

  /** vec_at_mut: entry i of the vector becomes q; every other entry of the matrix stays. */
  function SetAt(m: Matrix, vi: VecInfo, i: nat, q: Rational): (r: Matrix)
    requires Holds(m, vi) && i < vi.len && q.Valid()
    ensures Holds(r, vi) && SameDim(r, m) && At(r, vi, i) == q
    ensures forall j :: 0 <= j < vi.len && j != i ==> At(r, vi, j) == At(m, vi, j)
  {
    if vi.isRow then m.Set(0, i, q) else m.Set(i, 0, q)
  }

  /** The vector takes up the whole matrix: one row of len entries, or one column. */
  predicate Spans(m: Matrix, vi: VecInfo) {
    if vi.isRow then m.rows == 1 && m.cols == vi.len else m.cols == 1 && m.rows == vi.len
  }

  /**
   * Two matrices that hold a vector spanning both, with the same values
   * entry by entry, are the same matrix (canonical rationals are equal
   * when their values are).
   */
  lemma VectorsEqual(a: Matrix, b: Matrix, vi: VecInfo)
    requires Holds(a, vi) && Holds(b, vi) && Spans(a, vi) && Spans(b, vi)
    requires Vals(a, vi) == Vals(b, vi)
    ensures a == b
  {
    forall i | 0 <= i < vi.len ensures At(a, vi, i) == At(b, vi, i) {
      ValInjective(At(a, vi, i), At(b, vi, i));
    }
    forall r | 0 <= r < a.rows ensures a.cells[r] == b.cells[r] {
      forall c | 0 <= c < a.cols ensures a.cells[r][c] == b.cells[r][c] {
        if vi.isRow {
          assert At(a, vi, c) == a.cells[r][c];
        } else {
          assert At(a, vi, r) == a.cells[r][c];
        }
      }
    }
  }

  /** The values of the vector's entries. */
  ghost function Vals(m: Matrix, vi: VecInfo): (xs: seq<real>)
    requires Holds(m, vi)
    ensures |xs| == vi.len && forall i :: 0 <= i < vi.len ==> xs[i] == At(m, vi, i).Val()
  {
    seq(vi.len, i requires 0 <= i < vi.len => At(m, vi, i).Val())
  }

  // ---------------------------------------------------------------------
  // Sums over real sequences
  // ---------------------------------------------------------------------

  /**
   * A product of reals as a function symbol: the solver compares products of
   * a term with itself reliably only when they are not written as x * x.
   */
  ghost function Times(a: real, b: real): real {
    a * b
  }

  /** The dot product of xs and ys from index i on. */
  ghost function DotTail(xs: seq<real>, ys: seq<real>, i: nat): real
    requires |xs| == |ys|
    decreases |xs| - i
  {
    if i >= |xs| then 0.0 else Times(xs[i], ys[i]) + DotTail(xs, ys, i + 1)
  }

  ghost function Dot(xs: seq<real>, ys: seq<real>): real
    requires |xs| == |ys|
  {
    DotTail(xs, ys, 0)
  }

  /** Dot products are symmetric. */
  lemma {:induction false} DotTailSymmetric(xs: seq<real>, ys: seq<real>, i: nat)
    requires |xs| == |ys|
    ensures DotTail(xs, ys, i) == DotTail(ys, xs, i)
    decreases |xs| - i
  {
    if i < |xs| {
      DotTailSymmetric(xs, ys, i + 1);
    }
  }

  /**
   * Linearity in the first argument: when xs[j] == ys[j] - k * zs[j]
   * everywhere, xs . ws == ys . ws - k * (zs . ws).
   */
  lemma {:induction false} DotTailLinear(xs: seq<real>, ys: seq<real>, zs: seq<real>, ws: seq<real>, k: real, i: nat)
    requires |xs| == |ys| == |zs| == |ws|
    requires forall j :: 0 <= j < |xs| ==> xs[j] == ys[j] - k * zs[j]
    ensures DotTail(xs, ws, i) == DotTail(ys, ws, i) - k * DotTail(zs, ws, i)
    decreases |xs| - i
  {
    if i < |xs| {
      DotTailLinear(xs, ys, zs, ws, k, i + 1);
      var a, b, c, d := ys[i], zs[i], ws[i], DotTail(zs, ws, i + 1);
      assert xs[i] * c == a * c - k * (b * c);
      assert k * (b * c + d) == k * (b * c) + k * d;
    }
  }

  /** Scaling: when xs[j] == k * ys[j] everywhere, xs . ws == k * (ys . ws). */
  lemma {:induction false} DotTailScaled(xs: seq<real>, ys: seq<real>, ws: seq<real>, k: real, i: nat)
    requires |xs| == |ys| == |ws|
    requires forall j :: 0 <= j < |xs| ==> xs[j] == k * ys[j]
    ensures DotTail(xs, ws, i) == k * DotTail(ys, ws, i)
    decreases |xs| - i
  {
    if i < |xs| {
      DotTailScaled(xs, ys, ws, k, i + 1);
      var b, c, d := ys[i], ws[i], DotTail(ys, ws, i + 1);
      assert xs[i] * c == k * (b * c);
      assert k * (b * c + d) == k * (b * c) + k * d;
    }
  }

  lemma PositiveProduct(a: real, b: real)
    requires a > 0.0 && b > 0.0
    ensures Times(a, b) > 0.0
  {
  }

  /** A square is never negative, and positive unless its root is zero. */
  lemma SquareSign(x: real)
    ensures Times(x, x) >= 0.0
    ensures x != 0.0 ==> Times(x, x) > 0.0
  {
    if x < 0.0 {
      PositiveProduct(-x, -x);
      assert Times(-x, -x) == Times(x, x);
    } else if x > 0.0 {
      PositiveProduct(x, x);
    }
  }

  /**
   * A sum of squares is never negative, and is positive as soon as one of
   * its terms has a nonzero root.
   */
  lemma {:induction false} SquaresFrom(xs: seq<real>, i: nat, j: nat)
    requires i <= j < |xs|
    ensures DotTail(xs, xs, i) >= 0.0
    ensures xs[j] != 0.0 ==> DotTail(xs, xs, i) > 0.0
    decreases |xs| - i
  {
    SquareSign(xs[i]);
    if i + 1 < |xs| {
      SquaresFrom(xs, i + 1, if j == i then i + 1 else j);
    }
  }

  /** A sum of squares of zeros is zero. */
  lemma {:induction false} ZerosSquareFrom(xs: seq<real>, i: nat)
    requires forall j :: 0 <= j < |xs| ==> xs[j] == 0.0
    ensures DotTail(xs, xs, i) == 0.0
    decreases |xs| - i
  {
    if i < |xs| {
      ZerosSquareFrom(xs, i + 1);
      assert Times(xs[i], xs[i]) == 0.0 * 0.0;
    }
  }

  /** xs . xs is zero exactly when every entry of xs is. */
  lemma SquaresZero(xs: seq<real>)
    ensures Dot(xs, xs) >= 0.0
    ensures Dot(xs, xs) == 0.0 <==> forall j :: 0 <= j < |xs| ==> xs[j] == 0.0
  {
    if forall j :: 0 <= j < |xs| ==> xs[j] == 0.0 {
      ZerosSquareFrom(xs, 0);
    } else {
      var j :| 0 <= j < |xs| && xs[j] != 0.0;
      SquaresFrom(xs, 0, j);
    }
  }

  // ---------------------------------------------------------------------
  // The dot product (dot_raw, dot_of)
  // ---------------------------------------------------------------------

  /** Two vectors of the same length. */
  predicate Paired(u: Matrix, ui: VecInfo, v: Matrix, vi: VecInfo) {
    Holds(u, ui) && Holds(v, vi) && ui.len == vi.len
  }

  /**
   * The loop of dot_raw from entry i on, carrying the running sum: each
   * product is formed with rational_mul and added with rational_add, and
   * the first error ends the loop. The sum is exact: u . v from i on,
   * added to what was carried in.
   */
  function DotLoop(u: Matrix, ui: VecInfo, v: Matrix, vi: VecInfo, i: nat, sum: Rational): (r: Result<Rational>)
    requires Paired(u, ui, v, vi) && i <= ui.len && sum.Valid()
    ensures r.Failure? ==> r.code == Overflow
    ensures r.Success? ==> r.value.Valid() && r.value.Val() == sum.Val() + DotTail(Vals(u, ui), Vals(v, vi), i)
    decreases ui.len - i
  {
    if i == ui.len then Success(sum)
    else
      var prod :- Mul(At(u, ui, i), At(v, vi, i));
      var next :- Add(sum, prod);
      DotStep(Vals(u, ui), Vals(v, vi), i, sum.Val(), prod.Val(), next.Val());
      DotLoop(u, ui, v, vi, i + 1, next)
  }

  /** One turn of the dot loop keeps sum + (the rest of the dot product) fixed. */
  lemma DotStep(xs: seq<real>, ys: seq<real>, i: nat, sum: real, prod: real, next: real)
    requires |xs| == |ys| && i < |xs|
    requires prod == xs[i] * ys[i] && next == sum + prod
    ensures next + DotTail(xs, ys, i + 1) == sum + DotTail(xs, ys, i)
  {
  }

  /** dot_raw: the loop from zero; on success the exact dot product, otherwise Overflow. */
  function DotRaw(u: Matrix, ui: VecInfo, v: Matrix, vi: VecInfo): (r: Result<Rational>)
    requires Paired(u, ui, v, vi)
    ensures r.Failure? ==> r.code == Overflow
    ensures r.Success? ==> r.value.Valid() && r.value.Val() == Dot(Vals(u, ui), Vals(v, vi))
  {
    DotLoop(u, ui, v, vi, 0, FromInt(0))
  }

  /** The vector shape of a matrix that has one. */
  function Info(m: Matrix): (vi: VecInfo)
    requires m.Wf() && VecInfoOf(m).Success?
    ensures Holds(m, vi) && vi.len >= 1 && Spans(m, vi)
  {
    VecInfoOf(m).value
  }

  /** What dot_of hands back: the product and both vector shapes. */
  datatype Dotted = Dotted(dot: Rational, ui: VecInfo, vi: VecInfo)

  /**
   * dot_of: u's shape, then v's (InvalidDimension), DimensionMismatch for
   * different lengths, InvalidDimension for a length above MAX_ROWS, then
   * dot_raw.
   */
  function DotOf(u: Matrix, v: Matrix): (r: Result<Dotted>)
    requires u.Wf() && v.Wf()
    ensures VecInfoOf(u).Failure? || VecInfoOf(v).Failure? ==> r == Failure(InvalidDimension)
    ensures VecInfoOf(u).Success? && VecInfoOf(v).Success? && Info(u).len != Info(v).len ==>
              r == Failure(DimensionMismatch)
    ensures VecInfoOf(u).Success? && VecInfoOf(v).Success? && Info(u).len == Info(v).len > MAX_ROWS ==>
              r == Failure(InvalidDimension)
    ensures r.Failure? ==> r.code in {InvalidDimension, DimensionMismatch, Overflow}
    ensures r.Success? ==>
              VecInfoOf(u).Success? && VecInfoOf(v).Success? &&
              r.value.ui == Info(u) && r.value.vi == Info(v) &&
              Info(u).len == Info(v).len <= MAX_ROWS && r.value.dot.Valid() &&
              r.value.dot.Val() == Dot(Vals(u, r.value.ui), Vals(v, r.value.vi))
  {
    var ui :- VecInfoOf(u);
    var vi :- VecInfoOf(v);
    if ui.len != vi.len then Failure(DimensionMismatch)
    else if ui.len > MAX_ROWS then Failure(InvalidDimension)
    else
      var d :- DotRaw(u, ui, v, vi);
      Success(Dotted(d, ui, vi))
  }

  // ---------------------------------------------------------------------
  // op_dot and its explanation
  // ---------------------------------------------------------------------

  /** A matrix that vec_info accepts. */
  predicate IsVector(m: Matrix) {
    m.Wf() && VecInfoOf(m).Success?
  }

  /** DotCtx: the two vectors, their shapes and the product. */
  datatype DotCtx = DotCtx(u: Matrix, v: Matrix, ui: VecInfo, vi: VecInfo, dot: Rational)

  predicate DotCtxValid(ctx: DotCtx) {
    Paired(ctx.u, ctx.ui, ctx.v, ctx.vi) && ctx.dot.Valid()
  }

  /**
   * sizeof(DotCtx) and alignof(DotCtx) on an LP64 host: two 16-byte views,
   * two two-byte shapes padded to 40, and a rational.
   */
  const DOT_CTX_SIZE: nat := 56
  const DOT_CTX_ALIGN: nat := 8

  /** What op_dot leaves: the error, *out (None when left alone), the persist arena and the context. */
  datatype DotResult = DotResult(err: Error, value: Option<Rational>, persist: Option<Arena>, ctx: Option<DotCtx>)

  /**
   * op_dot: dot_of's error is reported with both shapes and leaves *out
   * alone; otherwise *out receives the product before the explanation, if
   * asked for, is stored, so an Internal or Overflow from storing it still
   * leaves the product in *out.
   */
  function OpDot(u: Matrix, v: Matrix, opts: Options): (r: DotResult)
    requires u.Wf() && v.Wf() && OptionsValid(opts)
    ensures !IsVector(u) || !IsVector(v) ==>
              r == DotResult(ErrAB(InvalidDimension, u.Dim(), v.Dim()), None, opts.persist, None)
    ensures IsVector(u) && IsVector(v) && Info(u).len != Info(v).len ==>
              r == DotResult(ErrAB(DimensionMismatch, u.Dim(), v.Dim()), None, opts.persist, None)
    ensures IsVector(u) && IsVector(v) && Info(u).len == Info(v).len > MAX_ROWS ==>
              r == DotResult(ErrAB(InvalidDimension, u.Dim(), v.Dim()), None, opts.persist, None)
    ensures r.err.code in {Ok, InvalidDimension, DimensionMismatch, Overflow, Internal}
    ensures r.value.None? ==> r.err.a == u.Dim() && r.err.b == v.Dim() && r.ctx.None? && r.persist == opts.persist
    ensures r.value.None? <==> r.err.code != Ok && r.err.code != Internal && (r.err.code == Overflow ==> r.err.a != NoDim)
    ensures r.value.Some? ==>
              IsVector(u) && IsVector(v) && Info(u).len == Info(v).len && r.value.value.Valid() &&
              r.value.value.Val() == Dot(Vals(u, Info(u)), Vals(v, Info(v)))
    ensures r.ctx.Some? <==> r.err.code == Ok && opts.enable
    ensures r.ctx.Some? ==> r.ctx.value == DotCtx(u, v, Info(u), Info(v), r.value.value) && DotCtxValid(r.ctx.value)
  {
    match DotOf(u, v)
    case Failure(e) => DotResult(ErrAB(e, u.Dim(), v.Dim()), None, opts.persist, None)
    case Success(d) =>
      var p := Persist(opts, DOT_CTX_SIZE, DOT_CTX_ALIGN);
      var ctx := if p.ec == Ok && opts.enable then Some(DotCtx(u, v, d.ui, d.vi, d.dot)) else None;
      DotResult(ErrCode(p.ec), Some(d.dot), p.persist, ctx)
  }

  /** dot_step_count: one step. */
  function DotStepCount(ctx: DotCtx): (n: nat)
    ensures n == 1
  {
    1
  }

  /** The LaTeX of entry i of the sum: "(u_i)\cdot(v_i)", after " + " unless it is the first. */
  function TermText(ctx: DotCtx, i: nat): string
    requires DotCtxValid(ctx) && i < ctx.ui.len
  {
    (if i != 0 then " + " else "") +
    "(" + RationalText(At(ctx.u, ctx.ui, i)) + ")\\cdot(" + RationalText(At(ctx.v, ctx.vi, i)) + ")"
  }

  /** The terms from entry i on. */
  function TermsText(ctx: DotCtx, i: nat): string
    requires DotCtxValid(ctx) && i <= ctx.ui.len
    decreases ctx.ui.len - i
  {
    if i == ctx.ui.len then "" else TermText(ctx, i) + TermsText(ctx, i + 1)
  }

  /** The whole step: "$$u\cdot v = " then the terms, " = ", the product and "$$". */
  function DotText(ctx: DotCtx): string
    requires DotCtxValid(ctx)
  {
    "$$u\\cdot v = " + TermsText(ctx, 0) + " = " + RationalText(ctx.dot) + "$$"
  }

  /** One pass of the render loop: the separator, '(', u_i, ")\cdot(", v_i and ')', each with an early return. */
  function WriteTerm(w: Writer, ctx: DotCtx, i: nat): (r: Emitted)
    requires w.Valid() && DotCtxValid(ctx) && i < ctx.ui.len
    ensures r == Append(w, TermText(ctx, i))
  {
    var sep := if i != 0 then " + " else "";
    var a, b := RationalText(At(ctx.u, ctx.ui, i)), RationalText(At(ctx.v, ctx.vi, i));
    var e0 := if i != 0 then Append(w, " + ") else Emitted(w, Ok);
    var e1 := if e0.ec != Ok then e0 else Put(e0.w, '(');
    var e2 := if e1.ec != Ok then e1 else AppendRationalLatex(e1.w, At(ctx.u, ctx.ui, i));
    var e3 := AppendThen(e2, ")\\cdot(");
    var e4 := if e3.ec != Ok then e3 else AppendRationalLatex(e3.w, At(ctx.v, ctx.vi, i));
    var e5 := if e4.ec != Ok then e4 else Put(e4.w, ')');
    AppendNothing(w);
    PutIsAppend(e0.w, '(');
    PutIsAppend(e4.w, ')');
    AppendChain(w, sep, "(");
    AppendChain(w, sep + "(", a);
    AppendChain(w, sep + "(" + a, ")\\cdot(");
    AppendChain(w, sep + "(" + a + ")\\cdot(", b);
    AppendChain(w, sep + "(" + a + ")\\cdot(" + b, ")");
    e5
  }

  /** The render loop from entry i on, continuing only while every write succeeds. */
  function WriteTerms(e: Emitted, ctx: DotCtx, i: nat): (r: Emitted)
    requires e.w.Valid() && DotCtxValid(ctx) && i <= ctx.ui.len
    ensures r.w.Valid()
    decreases ctx.ui.len - i
  {
    if e.ec != Ok || i == ctx.ui.len then e
    else WriteTerms(WriteTerm(e.w, ctx, i), ctx, i + 1)
  }

  /** The render loop writes the terms as one append would. */
  lemma {:induction false} WriteTermsText(w: Writer, ctx: DotCtx, i: nat)
    requires w.Valid() && DotCtxValid(ctx) && i <= ctx.ui.len
    ensures WriteTerms(Emitted(w, Ok), ctx, i) == Append(w, TermsText(ctx, i))
    decreases ctx.ui.len - i
  {
    if i == ctx.ui.len {
      AppendNothing(w);
    } else {
      var e := WriteTerm(w, ctx, i);
      AppendChain(w, TermText(ctx, i), TermsText(ctx, i + 1));
      if e.ec == Ok {
        WriteTermsText(e.w, ctx, i + 1);
      }
    }
  }

  /**
   * dot_render_step: every index but 0 is StepOutOfRange; the scratch
   * arena is not needed; step 0 writes "$$u\cdot v = (u_1)\cdot(v_1) + ...
   * = d$$" and no caption.
   */
  function DotRender(ctx: DotCtx, index: nat, out: Buffers): (r: Rendered)
    requires DotCtxValid(ctx)
    ensures index >= DotStepCount(ctx) ==> r == Nothing(StepOutOfRange)
    ensures index == 0 ==> r == WithLatex([], Append(Fresh(out.latexCap), DotText(ctx)))
  {
    if index != 0 then Nothing(StepOutOfRange)
    else
      var w := Fresh(out.latexCap);
      var head := "$$u\\cdot v = ";
      var e1 := Append(w, head);
      var e2 := WriteTerms(e1, ctx, 0);
      var e3 := AppendThen(e2, " = ");
      var e4 := if e3.ec != Ok then e3 else AppendRationalLatex(e3.w, ctx.dot);
      var e5 := AppendThen(e4, "$$");
      WriteTermsText(e1.w, ctx, 0);
      var terms := TermsText(ctx, 0);
      AppendChain(w, head, terms);
      AppendChain(w, head + terms, " = ");
      AppendChain(w, head + terms + " = ", RationalText(ctx.dot));
      AppendChain(w, head + terms + " = " + RationalText(ctx.dot), "$$");
      WithLatex([], e5)
  }

  /**
   * The explanation op_dot stores has one step, and that step shows every
   * product u_i v_i of the two vectors and their exact sum, the value
   * written to *out.
   */
  lemma OpDotExplained(u: Matrix, v: Matrix, opts: Options, out: Buffers)
    requires u.Wf() && v.Wf() && OptionsValid(opts)
    requires OpDot(u, v, opts).ctx.Some?
    ensures var r := OpDot(u, v, opts);
            var ctx := r.ctx.value;
            DotStepCount(ctx) == 1 && ctx.dot == r.value.value &&
            DotRender(ctx, 0, out) == WithLatex([], Append(Fresh(out.latexCap), DotText(ctx))) &&
            ctx.dot.Val() == Dot(Vals(u, ctx.ui), Vals(v, ctx.vi))
  {
  }

  // ---------------------------------------------------------------------
  // Shared by the vector explanations
  // ---------------------------------------------------------------------

  /**
   * A computed vector step: the caption, when there is a caption buffer (a
   * caption that does not fit ends the step), then the matrix as a
   * bmatrix display.
   */
  function CaptionedVector(caption: string, out: Buffers, shown: Matrix): (r: Rendered)
    requires shown.Wf()
    ensures r.ec == Ok || r.ec == BufferTooSmall
    ensures r.ec == Ok ==> r.latex == Latex.Display(Latex.MatrixText(shown, Latex.BMatrix))
    ensures r.ec == Ok ==> r.caption == (if out.caption.Some? then caption else [])
  {
    match out.caption
    case None => WithLatex([], Latex.WriteMatrixDisplay(shown, Latex.BMatrix, out.latexCap))
    case Some(cap) =>
      var c := Append(Fresh(cap), caption);
      if c.ec != Ok then Rendered(c.ec, c.w.text, [])
      else WithLatex(c.w.text, Latex.WriteMatrixDisplay(shown, Latex.BMatrix, out.latexCap))
  }
}
