/**
 * The projection of u onto v (op_proj_decompose_u_onto_v, proj_decompose_raw
 * and the projection explanation in ops_vector_ondemand.cpp): u is split
 * into proj = (u . v)/(v . v) v and orth = u - proj, with the two dot
 * products, the factor k and both squared norms reported alongside. Every
 * quantity is stored as soon as it is computed, so an overflow leaves the
 * earlier ones in place.
 */
module Projection {

  import opened Errors
  import opened Int64
  import opened Rationals
  import opened Matrices
  import opened Arenas
  import opened Writers
  import opened Explaining
  import opened Vectors
  import DetOps

  // ---------------------------------------------------------------------
  // Entry-by-entry vector fills
  // ---------------------------------------------------------------------

  /**
   * What a fill loop stores in entry j: k v_j (the proj loop), u_j - p_j
   * with p the proj just written (the orth loop), or u_j - k v_j with the
   * product formed afresh (the orth step of the explanation).
   */
  datatype Term =
    | Scale(k: Rational, v: Matrix, vi: VecInfo)
    | Minus(u: Matrix, ui: VecInfo, p: Matrix)
    | MinusScaled(u: Matrix, ui: VecInfo, k: Rational, v: Matrix, vi: VecInfo)

  /** The term's operands are valid vectors of length n. */
  predicate TermValid(t: Term, n: nat) {
    match t
    case Scale(k, v, vi) => k.Valid() && Holds(v, vi) && vi.len == n
    case Minus(u, ui, p) => Holds(u, ui) && Holds(p, ui) && ui.len == n
    case MinusScaled(u, ui, k, v, vi) => Holds(u, ui) && ui.len == n && k.Valid() && Holds(v, vi) && vi.len == n
  }

  /** Entry j of the term, with the first error of rational_mul / rational_sub. */
  function TermAt(t: Term, n: nat, j: nat): (r: Result<Rational>)
    requires TermValid(t, n) && j < n
    ensures r.Failure? ==> r.code == Overflow
    ensures r.Success? ==> r.value.Valid()
    ensures r.Success? && t.Scale? ==> r.value.Val() == t.k.Val() * At(t.v, t.vi, j).Val()
    ensures r.Success? && t.Minus? ==> r.value.Val() == At(t.u, t.ui, j).Val() - At(t.p, t.ui, j).Val()
    ensures r.Success? && t.MinusScaled? ==>
              r.value.Val() == At(t.u, t.ui, j).Val() - t.k.Val() * At(t.v, t.vi, j).Val()
  {
    match t
    case Scale(k, v, vi) => Mul(k, At(v, vi, j))
    case Minus(u, ui, p) => Sub(At(u, ui, j), At(p, ui, j))
    case MinusScaled(u, ui, k, v, vi) =>
      var kv :- Mul(k, At(v, vi, j));
      Sub(At(u, ui, j), kv)
  }

  /** Every entry of the vector m (shape mi) is the term's value. */
  predicate Filled(t: Term, m: Matrix, mi: VecInfo)
    requires TermValid(t, mi.len) && Holds(m, mi)
  {
    forall j :: 0 <= j < mi.len ==> TermAt(t, mi.len, j) == Success(At(m, mi, j))
  }

  /**
   * A fill loop from entry i on: each entry is computed and stored, the
   * first error returning. It succeeds exactly when every remaining entry
   * can be computed, and then fills them all; entries before i are not
   * touched, and each later one is either untouched or holds its value.
   */
  function Fill(t: Term, m: Matrix, mi: VecInfo, i: nat): (r: Written)
    requires TermValid(t, mi.len) && Holds(m, mi) && i <= mi.len
    ensures Holds(r.m, mi) && SameDim(r.m, m)
    ensures r.ec == Ok || r.ec == Overflow
    ensures r.ec == Ok <==> forall j :: i <= j < mi.len ==> TermAt(t, mi.len, j).Success?
    ensures forall j :: 0 <= j < i ==> At(r.m, mi, j) == At(m, mi, j)
    ensures forall j :: i <= j < mi.len ==>
              At(r.m, mi, j) == At(m, mi, j) || TermAt(t, mi.len, j) == Success(At(r.m, mi, j))
    ensures r.ec == Ok ==> forall j :: i <= j < mi.len ==> TermAt(t, mi.len, j) == Success(At(r.m, mi, j))
    decreases mi.len - i
  {
    if i == mi.len then Written(m, Ok)
    else
      match TermAt(t, mi.len, i)
      case Failure(e) => Written(m, e)
      case Success(q) => Fill(t, SetAt(m, mi, i, q), mi, i + 1)
  }

  // ---------------------------------------------------------------------
  // proj_decompose_raw
  // ---------------------------------------------------------------------

  /** ProjDecomposeResult: u . v, v . v, k, ||proj||^2 and ||orth||^2. */
  datatype ProjResult = ProjResult(dotUV: Rational, dotVV: Rational, k: Rational, projNorm2: Rational, orthNorm2: Rational)

  /** A default-constructed ProjDecomposeResult: every field from_int(0). */
  function Cleared(): (res: ProjResult)
    ensures res.dotUV.Valid() && res.dotUV.Val() == 0.0
    ensures res == ProjResult(res.dotUV, res.dotUV, res.dotUV, res.dotUV, res.dotUV)
  {
    ProjResult(FromInt(0), FromInt(0), FromInt(0), FromInt(0), FromInt(0))
  }

  /** u and v of the same length, and proj and orth shaped for u's orientation. */
  predicate ProjArgs(u: Matrix, ui: VecInfo, v: Matrix, vi: VecInfo, proj: Matrix, orth: Matrix) {
    Holds(u, ui) && Holds(v, vi) && ui.len == vi.len && Holds(proj, ui) && Holds(orth, ui)
  }

  /**
   * The decomposition, exactly: the two dot products, k = (u . v)/(v . v)
   * with v . v nonzero, proj = k v and orth = u - proj entry by entry, and
   * the squared norms of proj and orth.
   */
  ghost predicate Decomposed(u: Matrix, ui: VecInfo, v: Matrix, vi: VecInfo, proj: Matrix, orth: Matrix, res: ProjResult)
    requires ProjArgs(u, ui, v, vi, proj, orth)
  {
    res.dotUV.Valid() && res.dotVV.Valid() && res.k.Valid() && res.projNorm2.Valid() && res.orthNorm2.Valid() &&
    res.dotUV.Val() == Dot(Vals(u, ui), Vals(v, vi)) &&
    res.dotVV.Val() == Dot(Vals(v, vi), Vals(v, vi)) && res.dotVV.Val() != 0.0 &&
    res.k.Val() == res.dotUV.Val() / res.dotVV.Val() &&
    (forall j :: 0 <= j < ui.len ==> At(proj, ui, j).Val() == res.k.Val() * At(v, vi, j).Val()) &&
    (forall j :: 0 <= j < ui.len ==> At(orth, ui, j).Val() == At(u, ui, j).Val() - At(proj, ui, j).Val()) &&
    res.projNorm2.Val() == Dot(Vals(proj, ui), Vals(proj, ui)) &&
    res.orthNorm2.Val() == Dot(Vals(orth, ui), Vals(orth, ui))
  }

  /** What proj_decompose_raw leaves: the error, both output vectors and the result record. */
  datatype ProjRun = ProjRun(ec: ErrorCode, proj: Matrix, orth: Matrix, res: ProjResult)

  /**
   * proj_decompose_raw: u . v, then v . v (each stored once computed),
   * DivisionByZero when v . v is zero, then k (stored), then the proj and
   * orth loops and the two squared norms. The first error returns. On
   * success the outputs are the exact decomposition, with proj and orth
   * holding the very rationals the two loops form.
   */
  function ProjRaw(u: Matrix, ui: VecInfo, v: Matrix, vi: VecInfo, proj: Matrix, orth: Matrix, res: ProjResult): (r: ProjRun)
    requires ProjArgs(u, ui, v, vi, proj, orth)
    ensures Holds(r.proj, ui) && SameDim(r.proj, proj) && Holds(r.orth, ui) && SameDim(r.orth, orth)
    ensures r.ec == Ok || r.ec == Overflow || r.ec == DivisionByZero
    ensures r.ec == Ok ==> Decomposed(u, ui, v, vi, r.proj, r.orth, r.res)
    ensures r.ec == Ok ==> Filled(Scale(r.res.k, v, vi), r.proj, ui) && Filled(Minus(u, ui, r.proj), r.orth, ui)
  {
    match DotRaw(u, ui, v, vi)
    case Failure(e) => ProjRun(e, proj, orth, res)
    case Success(uv) =>
      match DotRaw(v, vi, v, vi)
      case Failure(e) => ProjRun(e, proj, orth, res.(dotUV := uv))
      case Success(vv) => ProjFromDots(u, ui, v, vi, proj, orth, res.(dotUV := uv, dotVV := vv))
  }

  /**
   * proj_decompose_raw once both dot products are stored: DivisionByZero
   * when v . v is zero, otherwise k = (u . v)/(v . v), stored, and the rest.
   */
  function ProjFromDots(u: Matrix, ui: VecInfo, v: Matrix, vi: VecInfo, proj: Matrix, orth: Matrix, res: ProjResult): (r: ProjRun)
    requires ProjArgs(u, ui, v, vi, proj, orth)
    requires res.dotUV.Valid() && res.dotUV.Val() == Dot(Vals(u, ui), Vals(v, vi))
    requires res.dotVV.Valid() && res.dotVV.Val() == Dot(Vals(v, vi), Vals(v, vi))
    ensures Holds(r.proj, ui) && SameDim(r.proj, proj) && Holds(r.orth, ui) && SameDim(r.orth, orth)
    ensures r.ec == Ok || r.ec == Overflow || r.ec == DivisionByZero
    ensures r.ec == DivisionByZero <==> res.dotVV.IsZero()
    ensures r.ec == Ok ==> Decomposed(u, ui, v, vi, r.proj, r.orth, r.res)
    ensures r.ec == Ok ==> Filled(Scale(r.res.k, v, vi), r.proj, ui) && Filled(Minus(u, ui, r.proj), r.orth, ui)
  {
    if res.dotVV.IsZero() then ProjRun(DivisionByZero, proj, orth, res)
    else
      match Div(res.dotUV, res.dotVV)
      case Failure(e) => ProjRun(e, proj, orth, res)
      case Success(k) =>
        var r := ProjVectors(u, ui, v, vi, proj, orth, res.(k := k));
        if r.ec == Ok then
          DecomposedOf(u, ui, v, vi, r.proj, r.orth, r.res);
          r
        else r
  }

  /** The exact decomposition from what proj_decompose_raw computes. */
  lemma DecomposedOf(u: Matrix, ui: VecInfo, v: Matrix, vi: VecInfo, proj: Matrix, orth: Matrix, res: ProjResult)
    requires ProjArgs(u, ui, v, vi, proj, orth)
    requires res.dotUV.Valid() && res.dotVV.Valid() && res.k.Valid() && res.projNorm2.Valid() && res.orthNorm2.Valid()
    requires res.dotUV.Val() == Dot(Vals(u, ui), Vals(v, vi))
    requires res.dotVV.Val() == Dot(Vals(v, vi), Vals(v, vi)) && res.dotVV.Val() != 0.0
    requires res.k.Val() == res.dotUV.Val() / res.dotVV.Val()
    requires Filled(Scale(res.k, v, vi), proj, ui) && Filled(Minus(u, ui, proj), orth, ui)
    requires res.projNorm2.Val() == Dot(Vals(proj, ui), Vals(proj, ui))
    requires res.orthNorm2.Val() == Dot(Vals(orth, ui), Vals(orth, ui))
    ensures Decomposed(u, ui, v, vi, proj, orth, res)
  {
    FilledValues(u, ui, v, vi, proj, orth, res.k);
  }

  /** What the two fill loops store, as values: proj = k v and orth = u - proj. */
  lemma FilledValues(u: Matrix, ui: VecInfo, v: Matrix, vi: VecInfo, proj: Matrix, orth: Matrix, k: Rational)
    requires ProjArgs(u, ui, v, vi, proj, orth) && k.Valid()
    requires Filled(Scale(k, v, vi), proj, ui) && Filled(Minus(u, ui, proj), orth, ui)
    ensures forall j :: 0 <= j < ui.len ==> At(proj, ui, j).Val() == k.Val() * At(v, vi, j).Val()
    ensures forall j :: 0 <= j < ui.len ==> At(orth, ui, j).Val() == At(u, ui, j).Val() - At(proj, ui, j).Val()
  {
    forall j | 0 <= j < ui.len
      ensures At(proj, ui, j).Val() == k.Val() * At(v, vi, j).Val()
      ensures At(orth, ui, j).Val() == At(u, ui, j).Val() - At(proj, ui, j).Val()
    {
      assert TermAt(Scale(k, v, vi), ui.len, j) == Success(At(proj, ui, j));
      assert TermAt(Minus(u, ui, proj), ui.len, j) == Success(At(orth, ui, j));
    }
  }

  /**
   * The second half of proj_decompose_raw, once k is stored: the proj loop,
   * the orth loop, then ||proj||^2 and ||orth||^2, each stored once
   * computed. The dot products and k are left as they are.
   */
  function ProjVectors(u: Matrix, ui: VecInfo, v: Matrix, vi: VecInfo, proj: Matrix, orth: Matrix, res: ProjResult): (r: ProjRun)
    requires ProjArgs(u, ui, v, vi, proj, orth) && res.k.Valid()
    ensures Holds(r.proj, ui) && SameDim(r.proj, proj) && Holds(r.orth, ui) && SameDim(r.orth, orth)
    ensures r.ec == Ok || r.ec == Overflow
    ensures r.res.dotUV == res.dotUV && r.res.dotVV == res.dotVV && r.res.k == res.k
    ensures r.ec == Ok ==> Filled(Scale(res.k, v, vi), r.proj, ui) && Filled(Minus(u, ui, r.proj), r.orth, ui)
    ensures r.ec == Ok ==> r.res.projNorm2.Valid() && r.res.projNorm2.Val() == Dot(Vals(r.proj, ui), Vals(r.proj, ui))
    ensures r.ec == Ok ==> r.res.orthNorm2.Valid() && r.res.orthNorm2.Val() == Dot(Vals(r.orth, ui), Vals(r.orth, ui))
  {
    var p := Fill(Scale(res.k, v, vi), proj, ui, 0);
    if p.ec != Ok then ProjRun(p.ec, p.m, orth, res)
    else
      var o := Fill(Minus(u, ui, p.m), orth, ui, 0);
      if o.ec != Ok then ProjRun(o.ec, p.m, o.m, res)
      else
        match DotRaw(p.m, ui, p.m, ui)
        case Failure(e) => ProjRun(e, p.m, o.m, res)
        case Success(pn) =>
          match DotRaw(o.m, ui, o.m, ui)
          case Failure(e) => ProjRun(e, p.m, o.m, res.(projNorm2 := pn))
          case Success(on) => ProjRun(Ok, p.m, o.m, res.(projNorm2 := pn, orthNorm2 := on))
  }

  // ---------------------------------------------------------------------
  // What the decomposition means
  // ---------------------------------------------------------------------

  /**
   * proj_decompose_raw fails with DivisionByZero exactly when both dot
   * products are computed and v is the zero vector; it then leaves proj and
   * orth untouched, with u . v stored and v . v stored as 0.
   */
  lemma ProjDivisionByZero(u: Matrix, ui: VecInfo, v: Matrix, vi: VecInfo, proj: Matrix, orth: Matrix, res: ProjResult)
    requires ProjArgs(u, ui, v, vi, proj, orth)
    ensures var r := ProjRaw(u, ui, v, vi, proj, orth, res);
            r.ec == DivisionByZero <==>
              DotRaw(u, ui, v, vi).Success? && DotRaw(v, vi, v, vi).Success? &&
              forall j :: 0 <= j < vi.len ==> At(v, vi, j).Val() == 0.0
    ensures var r := ProjRaw(u, ui, v, vi, proj, orth, res);
            r.ec == DivisionByZero ==>
              r.proj == proj && r.orth == orth && r.res == res.(dotUV := DotRaw(u, ui, v, vi).value, dotVV := Zero)
  {
    var xs := Vals(v, vi);
    SquaresZero(xs);
    match DotRaw(u, ui, v, vi)
    case Failure(_) =>
    case Success(uv) =>
      match DotRaw(v, vi, v, vi)
      case Failure(_) =>
      case Success(vv) =>
        DetOps.ZeroIsZero(vv);
        if forall j :: 0 <= j < vi.len ==> At(v, vi, j).Val() == 0.0 {
          assert forall j :: 0 <= j < |xs| ==> xs[j] == 0.0;
        }
  }

  /**
   * The geometry of a completed decomposition: orth is orthogonal to v and
   * to proj, u = proj + orth entry by entry, and ||u||^2 is the sum of the
   * two squared norms reported.
   */
  lemma ProjGeometry(u: Matrix, ui: VecInfo, v: Matrix, vi: VecInfo, proj: Matrix, orth: Matrix, res: ProjResult)
    requires ProjArgs(u, ui, v, vi, proj, orth) && Decomposed(u, ui, v, vi, proj, orth, res)
    ensures Dot(Vals(orth, ui), Vals(v, vi)) == 0.0
    ensures Dot(Vals(proj, ui), Vals(orth, ui)) == 0.0
    ensures forall j :: 0 <= j < ui.len ==> At(u, ui, j).Val() == At(proj, ui, j).Val() + At(orth, ui, j).Val()
    ensures Dot(Vals(u, ui), Vals(u, ui)) == res.projNorm2.Val() + res.orthNorm2.Val()
  {
    var us, vs, ps, os := Vals(u, ui), Vals(v, vi), Vals(proj, ui), Vals(orth, ui);
    OrthogonalRemainder(us, vs, ps, os, res.k.Val());
    Pythagoras(us, ps, os);
  }

  /**
   * With p = k v for k = (u . v)/(v . v) and o = u - p, o is orthogonal to
   * v and to p.
   */
  lemma OrthogonalRemainder(us: seq<real>, vs: seq<real>, ps: seq<real>, os: seq<real>, k: real)
    requires |us| == |vs| == |ps| == |os|
    requires Dot(vs, vs) != 0.0 && k == Dot(us, vs) / Dot(vs, vs)
    requires forall j :: 0 <= j < |ps| ==> ps[j] == k * vs[j]
    requires forall j :: 0 <= j < |os| ==> os[j] == us[j] - ps[j]
    ensures Dot(os, vs) == 0.0 && Dot(ps, os) == 0.0
    ensures forall j :: 0 <= j < |us| ==> us[j] == ps[j] + os[j]
  {
    var uv, vv := Dot(us, vs), Dot(vs, vs);
    assert forall j :: 0 <= j < |os| ==> os[j] == us[j] - k * vs[j];
    DotTailLinear(os, us, vs, vs, k, 0);
    assert k * vv == uv;
    DotTailScaled(ps, vs, os, k, 0);
    DotTailSymmetric(vs, os, 0);
  }

  /** Pythagoras: when u = p + o with p and o orthogonal, ||u||^2 = ||p||^2 + ||o||^2. */
  lemma Pythagoras(us: seq<real>, ps: seq<real>, os: seq<real>)
    requires |us| == |ps| == |os|
    requires forall j :: 0 <= j < |us| ==> us[j] == ps[j] + os[j]
    requires Dot(ps, os) == 0.0
    ensures Dot(us, us) == Dot(ps, ps) + Dot(os, os)
  {
    assert forall j :: 0 <= j < |us| ==> us[j] == os[j] - (-1.0) * ps[j];
    DotTailLinear(us, os, ps, us, -1.0, 0);
    DotTailLinear(us, os, ps, os, -1.0, 0);
    DotTailLinear(us, os, ps, ps, -1.0, 0);
    DotTailSymmetric(os, us, 0);
    DotTailSymmetric(ps, us, 0);
    DotTailSymmetric(os, ps, 0);
  }

  // ---------------------------------------------------------------------
  // op_proj_decompose_u_onto_v
  // ---------------------------------------------------------------------

  /** ProjCtx: the operands, their shapes, the output's dimensions and the result record. */
  datatype ProjCtx = ProjCtx(u: Matrix, v: Matrix, ui: VecInfo, vi: VecInfo, outRows: nat, outCols: nat, res: ProjResult)

  predicate ProjCtxValid(ctx: ProjCtx) {
    Holds(ctx.u, ctx.ui) && Holds(ctx.v, ctx.vi) && ctx.ui.len == ctx.vi.len &&
    ctx.outRows == ctx.u.rows && ctx.outCols == ctx.u.cols &&
    ctx.res.dotUV.Valid() && ctx.res.dotVV.Valid() && ctx.res.k.Valid() &&
    ctx.res.projNorm2.Valid() && ctx.res.orthNorm2.Valid()
  }

  /**
   * sizeof(ProjCtx) and alignof(ProjCtx) on an LP64 host: two views, two
   * two-byte shapes padded to 40, the output view, and five 16-byte
   * rationals.
   */
  const PROJ_CTX_SIZE: nat := 136
  const PROJ_CTX_ALIGN: nat := 8

  /**
   * What op_proj_decompose_u_onto_v leaves: the error, the two output
   * vectors, the caller's result record (None for a null pointer), the
   * persist arena and the context.
   */
  datatype ProjOut = ProjOut(err: Error, proj: Matrix, orth: Matrix, out: Option<ProjResult>,
                             persist: Option<Arena>, ctx: Option<ProjCtx>)

  /**
   * op_proj_decompose_u_onto_v: u's shape (its error with u's shape), v's
   * shape (its error with v's shape in the second slot), lengths that
   * differ, then out_proj and out_orth not shaped like u (each
   * DimensionMismatch). With an explanation asked for, the context is
   * stored first (Internal or Overflow end the call before anything is
   * computed), the decomposition goes into the context's result record, a
   * failure is reported with both shapes and rolls the persist arena back,
   * and on success the record is copied to the caller's. Without one, the
   * decomposition goes straight into the caller's record, so a failure
   * leaves there whatever was stored before it.
   */
  function OpProj(u: Matrix, v: Matrix, proj: Matrix, orth: Matrix, out: Option<ProjResult>, opts: Options): (r: ProjOut)
    requires u.Wf() && v.Wf() && proj.Wf() && orth.Wf() && OptionsValid(opts)
    ensures !IsVector(u) ==> r == ProjOut(ErrA(InvalidDimension, u.Dim()), proj, orth, out, opts.persist, None)
    ensures IsVector(u) && !IsVector(v) ==>
              r == ProjOut(Error(InvalidDimension, NoDim, v.Dim(), 0, 0), proj, orth, out, opts.persist, None)
    ensures IsVector(u) && IsVector(v) && Info(u).len != Info(v).len ==>
              r == ProjOut(ErrAB(DimensionMismatch, u.Dim(), v.Dim()), proj, orth, out, opts.persist, None)
    ensures IsVector(u) && IsVector(v) && Info(u).len == Info(v).len && !SameDim(proj, u) ==>
              r == ProjOut(ErrAB(DimensionMismatch, u.Dim(), proj.Dim()), proj, orth, out, opts.persist, None)
    ensures IsVector(u) && IsVector(v) && Info(u).len == Info(v).len && SameDim(proj, u) && !SameDim(orth, u) ==>
              r == ProjOut(ErrAB(DimensionMismatch, u.Dim(), orth.Dim()), proj, orth, out, opts.persist, None)
    ensures r.err.code in {Ok, InvalidDimension, DimensionMismatch, Overflow, DivisionByZero, Internal}
    ensures r.out.Some? <==> out.Some?
    ensures r.err.code != Ok ==> r.ctx.None? && r.persist == opts.persist
    ensures r.err.code == Internal ==> r.proj == proj && r.orth == orth && r.out == out
    ensures opts.enable && r.err.code != Ok ==> r.out == out
    ensures r.err.code == Ok ==>
              IsVector(u) && IsVector(v) && ProjArgs(u, Info(u), v, Info(v), r.proj, r.orth) &&
              SameDim(r.proj, u) && SameDim(r.orth, u)
    ensures r.err.code == Ok && r.out.Some? ==> Decomposed(u, Info(u), v, Info(v), r.proj, r.orth, r.out.value)
    ensures r.ctx.Some? <==> r.err.code == Ok && opts.enable
    ensures r.ctx.Some? ==>
              var ctx := r.ctx.value;
              ctx.u == u && ctx.v == v && ctx.ui == Info(u) && ctx.vi == Info(v) &&
              ctx.outRows == u.rows && ctx.outCols == u.cols && ProjCtxValid(ctx) &&
              Decomposed(u, Info(u), v, Info(v), r.proj, r.orth, ctx.res) &&
              Filled(Scale(ctx.res.k, v, Info(v)), r.proj, Info(u)) && Filled(Minus(u, Info(u), r.proj), r.orth, Info(u)) &&
              (r.out.Some? ==> r.out.value == ctx.res)
  {
    match VecInfoOf(u)
    case Failure(e) => ProjOut(ErrA(e, u.Dim()), proj, orth, out, opts.persist, None)
    case Success(ui) =>
      match VecInfoOf(v)
      case Failure(e) => ProjOut(Error(e, NoDim, v.Dim(), 0, 0), proj, orth, out, opts.persist, None)
      case Success(vi) =>
        if ui.len != vi.len then ProjOut(ErrAB(DimensionMismatch, u.Dim(), v.Dim()), proj, orth, out, opts.persist, None)
        else if u.rows != proj.rows || u.cols != proj.cols then
          ProjOut(ErrAB(DimensionMismatch, u.Dim(), proj.Dim()), proj, orth, out, opts.persist, None)
        else if u.rows != orth.rows || u.cols != orth.cols then
          ProjOut(ErrAB(DimensionMismatch, u.Dim(), orth.Dim()), proj, orth, out, opts.persist, None)
        else if opts.enable then OpProjExplaining(u, ui, v, vi, proj, orth, out, opts)
        else
          var run := ProjRaw(u, ui, v, vi, proj, orth, if out.Some? then out.value else Cleared());
          var err := if run.ec == Ok then NoError else ErrAB(run.ec, u.Dim(), v.Dim());
          ProjOut(err, run.proj, run.orth, if out.Some? then Some(run.res) else None, opts.persist, None)
  }

  /**
   * The explaining path of op_proj_decompose_u_onto_v: the context is
   * stored first; the decomposition is computed into its zero-initialised
   * result record; a failure is reported with both shapes, leaves the
   * caller's record alone and rolls the persist arena back.
   */
  function OpProjExplaining(u: Matrix, ui: VecInfo, v: Matrix, vi: VecInfo, proj: Matrix, orth: Matrix,
                            out: Option<ProjResult>, opts: Options): (r: ProjOut)
    requires ProjArgs(u, ui, v, vi, proj, orth) && OptionsValid(opts) && opts.enable
    requires SameDim(proj, u) && SameDim(orth, u)
    ensures r.err.code in {Ok, Overflow, DivisionByZero, Internal}
    ensures r.out.Some? <==> out.Some?
    ensures r.err.code != Ok ==> r.ctx.None? && r.persist == opts.persist && r.out == out
    ensures r.err.code == Internal ==> r.proj == proj && r.orth == orth
    ensures r.err.code == Ok ==> Holds(r.proj, ui) && Holds(r.orth, ui) && SameDim(r.proj, u) && SameDim(r.orth, u)
    ensures r.err.code == Ok <==> r.ctx.Some?
    ensures r.ctx.Some? ==>
              var ctx := r.ctx.value;
              ctx.u == u && ctx.v == v && ctx.ui == ui && ctx.vi == vi &&
              ctx.outRows == u.rows && ctx.outCols == u.cols && ProjCtxValid(ctx) &&
              Decomposed(u, ui, v, vi, r.proj, r.orth, ctx.res) &&
              Filled(Scale(ctx.res.k, v, vi), r.proj, ui) && Filled(Minus(u, ui, r.proj), r.orth, ui) &&
              (r.out.Some? ==> r.out.value == ctx.res)
  {
    var p := Persist(opts, PROJ_CTX_SIZE, PROJ_CTX_ALIGN);
    if p.ec != Ok then ProjOut(ErrCode(p.ec), proj, orth, out, opts.persist, None)
    else
      var run := ProjRaw(u, ui, v, vi, proj, orth, Cleared());
      if run.ec != Ok then ProjOut(ErrAB(run.ec, u.Dim(), v.Dim()), run.proj, run.orth, out, opts.persist, None)
      else
        var ctx := ProjCtx(u, v, ui, vi, proj.rows, proj.cols, run.res);
        ProjOut(NoError, run.proj, run.orth, if out.Some? then Some(run.res) else None, p.persist, Some(ctx))
  }

  /**
   * op_proj_decompose_u_onto_v fails with DivisionByZero exactly when the
   * shapes are accepted, the context (if asked for) is stored, both dot
   * products are computed and v is the zero vector; the error carries
   * both shapes.
   */
  lemma OpProjZeroVector(u: Matrix, v: Matrix, proj: Matrix, orth: Matrix, out: Option<ProjResult>, opts: Options)
    requires u.Wf() && v.Wf() && proj.Wf() && orth.Wf() && OptionsValid(opts)
    ensures var r := OpProj(u, v, proj, orth, out, opts);
            r.err.code == DivisionByZero ==>
              IsVector(u) && IsVector(v) && Info(u).len == Info(v).len && r.err == ErrAB(DivisionByZero, u.Dim(), v.Dim()) &&
              forall j :: 0 <= j < Info(v).len ==> At(v, Info(v), j).Val() == 0.0
    ensures var r := OpProj(u, v, proj, orth, out, opts);
            IsVector(u) && IsVector(v) && Info(u).len == Info(v).len && SameDim(proj, u) && SameDim(orth, u) &&
            Persist(opts, PROJ_CTX_SIZE, PROJ_CTX_ALIGN).ec == Ok &&
            DotRaw(u, Info(u), v, Info(v)).Success? && DotRaw(v, Info(v), v, Info(v)).Success? &&
            (forall j :: 0 <= j < Info(v).len ==> At(v, Info(v), j).Val() == 0.0) ==>
              r.err.code == DivisionByZero
  {
    if IsVector(u) && IsVector(v) && Info(u).len == Info(v).len && SameDim(proj, u) && SameDim(orth, u) {
      ProjDivisionByZero(u, Info(u), v, Info(v), proj, orth, Cleared());
      if out.Some? {
        ProjDivisionByZero(u, Info(u), v, Info(v), proj, orth, out.value);
      }
    }
  }

  // ---------------------------------------------------------------------
  // The projection explanation
  // ---------------------------------------------------------------------

  /** proj_step_count: the formula, u . v, v . v, k, proj, orth, ||proj||^2, ||orth||^2. */
  function ProjStepCount(ctx: ProjCtx): (n: nat)
    ensures n == 8
  {
    8
  }

  const PROJ_FORMULA := "$$proj_v(u) = \\frac{u\\cdot v}{v\\cdot v} v$$"
  const UV_PREFIX := "$$u\\cdot v = "
  const VV_PREFIX := "$$v\\cdot v = "
  const K_PREFIX := "$$k = \\frac{u\\cdot v}{v\\cdot v} = "
  const PROJ_NORM_PREFIX := "$$||proj||^2 = "
  const ORTH_NORM_PREFIX := "$$||orth||^2 = "
  const PROJ_CAPTION := "$proj = kv$"
  const ORTH_CAPTION := "$orth = u - proj$"

  /** A value step: the prefix, the rational and the closing "$$". */
  function ValueText(prefix: string, q: Rational): string
  {
    prefix + RationalText(q) + "$$"
  }

  /** A value step's writer: three appends with an early return. */
  function WriteValue(prefix: string, q: Rational, cap: nat): (r: Emitted)
    requires q.Valid()
    ensures r == Append(Fresh(cap), ValueText(prefix, q))
  {
    var w := Fresh(cap);
    var e1 := Append(w, prefix);
    var e2 := if e1.ec != Ok then e1 else AppendRationalLatex(e1.w, q);
    AppendChain(w, prefix, RationalText(q));
    AppendChain(w, prefix + RationalText(q), "$$");
    AppendThen(e2, "$$")
  }

  /**
   * A vector step: a matrix of the output's shape is allocated in scratch
   * (its error ends the step), filled entry by entry (an overflow ends the
   * step) and shown under the caption.
   */
  function VectorStep(ctx: ProjCtx, t: Term, caption: string, out: Buffers): (r: Rendered)
    requires ProjCtxValid(ctx) && BuffersValid(out) && out.scratch.Some? && TermValid(t, ctx.ui.len)
    ensures r.ec in {Ok, Internal, InvalidDimension, Overflow, BufferTooSmall}
    ensures r.caption != [] ==> out.caption.Some?
    ensures r.ec == Ok ==>
              var tmp := Alloc(out.scratch.value, ctx.outRows, ctx.outCols, false);
              tmp.Success? && Holds(tmp.value.m, ctx.ui) &&
              Fill(t, tmp.value.m, ctx.ui, 0).ec == Ok &&
              r == CaptionedVector(caption, out, Fill(t, tmp.value.m, ctx.ui, 0).m)
  {
    match Alloc(out.scratch.value, ctx.outRows, ctx.outCols, false)
    case Failure(e) => Nothing(e)
    case Success(tmp) =>
      var w := Fill(t, tmp.m, ctx.ui, 0);
      if w.ec != Ok then Nothing(w.ec) else CaptionedVector(caption, out, w.m)
  }

  /**
   * proj_render_step: StepOutOfRange from 8 on, then Internal without a
   * scratch arena; both buffers are emptied. Steps 0-3, 6 and 7 write the
   * formula or one stored value; step 4 recomputes k v_i into a scratch
   * vector of the output's shape and shows it captioned "$proj = kv$";
   * step 5 recomputes u_i - k v_i the same way, captioned
   * "$orth = u - proj$".
   */
  function ProjRender(ctx: ProjCtx, index: nat, out: Buffers): (r: Rendered)
    requires ProjCtxValid(ctx) && BuffersValid(out)
    ensures index >= ProjStepCount(ctx) ==> r == Nothing(StepOutOfRange)
    ensures index < ProjStepCount(ctx) && out.scratch.None? ==> r == Nothing(Internal)
    ensures out.scratch.Some? && index == 0 ==> r == WithLatex([], Append(Fresh(out.latexCap), PROJ_FORMULA))
    ensures out.scratch.Some? && index == 1 ==> r == WithLatex([], Append(Fresh(out.latexCap), ValueText(UV_PREFIX, ctx.res.dotUV)))
    ensures out.scratch.Some? && index == 2 ==> r == WithLatex([], Append(Fresh(out.latexCap), ValueText(VV_PREFIX, ctx.res.dotVV)))
    ensures out.scratch.Some? && index == 3 ==> r == WithLatex([], Append(Fresh(out.latexCap), ValueText(K_PREFIX, ctx.res.k)))
    ensures out.scratch.Some? && index == 6 ==>
              r == WithLatex([], Append(Fresh(out.latexCap), ValueText(PROJ_NORM_PREFIX, ctx.res.projNorm2)))
    ensures out.scratch.Some? && index == 7 ==>
              r == WithLatex([], Append(Fresh(out.latexCap), ValueText(ORTH_NORM_PREFIX, ctx.res.orthNorm2)))
    ensures r.caption != [] ==> (index == 4 || index == 5) && out.caption.Some?
  {
    if index >= 8 then Nothing(StepOutOfRange)
    else if out.scratch.None? then Nothing(Internal)
    else if index == 0 then WithLatex([], Append(Fresh(out.latexCap), PROJ_FORMULA))
    else if index == 1 then WithLatex([], WriteValue(UV_PREFIX, ctx.res.dotUV, out.latexCap))
    else if index == 2 then WithLatex([], WriteValue(VV_PREFIX, ctx.res.dotVV, out.latexCap))
    else if index == 3 then WithLatex([], WriteValue(K_PREFIX, ctx.res.k, out.latexCap))
    else if index == 6 then WithLatex([], WriteValue(PROJ_NORM_PREFIX, ctx.res.projNorm2, out.latexCap))
    else if index == 7 then WithLatex([], WriteValue(ORTH_NORM_PREFIX, ctx.res.orthNorm2, out.latexCap))
    else if index == 4 then VectorStep(ctx, Scale(ctx.res.k, ctx.v, ctx.vi), PROJ_CAPTION, out)
    else VectorStep(ctx, MinusScaled(ctx.u, ctx.ui, ctx.res.k, ctx.v, ctx.vi), ORTH_CAPTION, out)
  }

  /**
   * A fill whose terms agree, entry by entry, with those that filled the
   * whole vector target succeeds and rebuilds target exactly.
   */
  lemma FillRebuilds(t: Term, s: Term, m: Matrix, target: Matrix, mi: VecInfo)
    requires TermValid(t, mi.len) && TermValid(s, mi.len) && Holds(m, mi) && Holds(target, mi)
    requires Spans(m, mi) && Spans(target, mi) && Filled(s, target, mi)
    requires forall j :: 0 <= j < mi.len ==> TermAt(t, mi.len, j) == TermAt(s, mi.len, j)
    ensures Fill(t, m, mi, 0).ec == Ok && Fill(t, m, mi, 0).m == target
  {
    var w := Fill(t, m, mi, 0);
    assert Spans(w.m, mi);
    assert Vals(w.m, mi) == Vals(target, mi);
    VectorsEqual(w.m, target, mi);
  }

  /** Once proj = k v is stored, u_i - k v_i formed afresh is u_i - proj_i. */
  lemma MinusScaledIsMinus(u: Matrix, ui: VecInfo, k: Rational, v: Matrix, vi: VecInfo, proj: Matrix)
    requires Holds(u, ui) && Holds(v, vi) && Holds(proj, ui) && ui.len == vi.len && k.Valid()
    requires Filled(Scale(k, v, vi), proj, ui)
    ensures forall j :: 0 <= j < ui.len ==>
              TermAt(MinusScaled(u, ui, k, v, vi), ui.len, j) == TermAt(Minus(u, ui, proj), ui.len, j)
  {
    forall j | 0 <= j < ui.len
      ensures TermAt(MinusScaled(u, ui, k, v, vi), ui.len, j) == TermAt(Minus(u, ui, proj), ui.len, j)
    {
      assert TermAt(Scale(k, v, vi), ui.len, j) == Success(At(proj, ui, j));
    }
  }

  /**
   * The explanation op_proj_decompose_u_onto_v stores shows, in steps 4
   * and 5, the very proj and orth vectors it wrote, whenever the scratch
   * arena has room for one.
   */
  lemma OpProjExplained(u: Matrix, v: Matrix, proj: Matrix, orth: Matrix, out: Option<ProjResult>, opts: Options, bufs: Buffers)
    requires u.Wf() && v.Wf() && proj.Wf() && orth.Wf() && OptionsValid(opts) && BuffersValid(bufs)
    requires OpProj(u, v, proj, orth, out, opts).ctx.Some?
    requires bufs.scratch.Some? && Alloc(bufs.scratch.value, u.rows, u.cols, false).Success?
    ensures var r := OpProj(u, v, proj, orth, out, opts);
            ProjRender(r.ctx.value, 4, bufs) == CaptionedVector(PROJ_CAPTION, bufs, r.proj) &&
            ProjRender(r.ctx.value, 5, bufs) == CaptionedVector(ORTH_CAPTION, bufs, r.orth)
  {
    var r := OpProj(u, v, proj, orth, out, opts);
    ExplainedVectors(r.ctx.value, r.proj, r.orth, bufs);
  }

  /** Steps 4 and 5 rebuild the vectors the decomposition stored next to the context. */
  lemma ExplainedVectors(ctx: ProjCtx, proj: Matrix, orth: Matrix, bufs: Buffers)
    requires ProjCtxValid(ctx) && BuffersValid(bufs) && Spans(ctx.u, ctx.ui)
    requires Holds(proj, ctx.ui) && Holds(orth, ctx.ui) && SameDim(proj, ctx.u) && SameDim(orth, ctx.u)
    requires Filled(Scale(ctx.res.k, ctx.v, ctx.vi), proj, ctx.ui) && Filled(Minus(ctx.u, ctx.ui, proj), orth, ctx.ui)
    requires bufs.scratch.Some? && Alloc(bufs.scratch.value, ctx.outRows, ctx.outCols, false).Success?
    ensures ProjRender(ctx, 4, bufs) == CaptionedVector(PROJ_CAPTION, bufs, proj)
    ensures ProjRender(ctx, 5, bufs) == CaptionedVector(ORTH_CAPTION, bufs, orth)
  {
    ExplainedProj(ctx, proj, bufs);
    ExplainedOrth(ctx, proj, orth, bufs);
  }

  lemma ExplainedProj(ctx: ProjCtx, proj: Matrix, bufs: Buffers)
    requires ProjCtxValid(ctx) && BuffersValid(bufs) && Spans(ctx.u, ctx.ui)
    requires Holds(proj, ctx.ui) && SameDim(proj, ctx.u)
    requires Filled(Scale(ctx.res.k, ctx.v, ctx.vi), proj, ctx.ui)
    requires bufs.scratch.Some? && Alloc(bufs.scratch.value, ctx.outRows, ctx.outCols, false).Success?
    ensures ProjRender(ctx, 4, bufs) == CaptionedVector(PROJ_CAPTION, bufs, proj)
  {
    var scale := Scale(ctx.res.k, ctx.v, ctx.vi);
    assert ProjRender(ctx, 4, bufs) == VectorStep(ctx, scale, PROJ_CAPTION, bufs);
    VectorStepRebuilds(ctx, scale, scale, PROJ_CAPTION, bufs, proj);
  }

  lemma ExplainedOrth(ctx: ProjCtx, proj: Matrix, orth: Matrix, bufs: Buffers)
    requires ProjCtxValid(ctx) && BuffersValid(bufs) && Spans(ctx.u, ctx.ui)
    requires Holds(proj, ctx.ui) && Holds(orth, ctx.ui) && SameDim(proj, ctx.u) && SameDim(orth, ctx.u)
    requires Filled(Scale(ctx.res.k, ctx.v, ctx.vi), proj, ctx.ui) && Filled(Minus(ctx.u, ctx.ui, proj), orth, ctx.ui)
    requires bufs.scratch.Some? && Alloc(bufs.scratch.value, ctx.outRows, ctx.outCols, false).Success?
    ensures ProjRender(ctx, 5, bufs) == CaptionedVector(ORTH_CAPTION, bufs, orth)
  {
    var minus := MinusScaled(ctx.u, ctx.ui, ctx.res.k, ctx.v, ctx.vi);
    assert ProjRender(ctx, 5, bufs) == VectorStep(ctx, minus, ORTH_CAPTION, bufs);
    MinusScaledIsMinus(ctx.u, ctx.ui, ctx.res.k, ctx.v, ctx.vi, proj);
    VectorStepRebuilds(ctx, minus, Minus(ctx.u, ctx.ui, proj), ORTH_CAPTION, bufs, orth);
  }

  /** A vector step whose terms agree with those that filled `target` shows `target`. */
  lemma VectorStepRebuilds(ctx: ProjCtx, t: Term, s: Term, caption: string, bufs: Buffers, target: Matrix)
    requires ProjCtxValid(ctx) && BuffersValid(bufs) && Spans(ctx.u, ctx.ui)
    requires TermValid(t, ctx.ui.len) && TermValid(s, ctx.ui.len)
    requires Holds(target, ctx.ui) && SameDim(target, ctx.u) && Filled(s, target, ctx.ui)
    requires forall j :: 0 <= j < ctx.ui.len ==> TermAt(t, ctx.ui.len, j) == TermAt(s, ctx.ui.len, j)
    requires bufs.scratch.Some? && Alloc(bufs.scratch.value, ctx.outRows, ctx.outCols, false).Success?
    ensures VectorStep(ctx, t, caption, bufs) == CaptionedVector(caption, bufs, target)
  {
    var tmp := Alloc(bufs.scratch.value, ctx.outRows, ctx.outCols, false).value;
    FillRebuilds(t, s, tmp.m, target, ctx.ui);
  }

  /**
   * The values the explanation shows are exact: u . v, v . v,
   * k = (u . v)/(v . v), and squared norms that add up to ||u||^2.
   */
  lemma OpProjExplainedValues(u: Matrix, v: Matrix, proj: Matrix, orth: Matrix, out: Option<ProjResult>, opts: Options)
    requires u.Wf() && v.Wf() && proj.Wf() && orth.Wf() && OptionsValid(opts)
    requires OpProj(u, v, proj, orth, out, opts).ctx.Some?
    ensures var res := OpProj(u, v, proj, orth, out, opts).ctx.value.res;
            var us, vs := Vals(u, Info(u)), Vals(v, Info(v));
            res.dotUV.Val() == Dot(us, vs) && res.dotVV.Val() == Dot(vs, vs) &&
            res.k.Val() == Dot(us, vs) / Dot(vs, vs) &&
            res.projNorm2.Val() + res.orthNorm2.Val() == Dot(us, us)
  {
    var r := OpProj(u, v, proj, orth, out, opts);
    ProjGeometry(u, Info(u), v, Info(v), r.proj, r.orth, r.ctx.value.res);
  }
}
