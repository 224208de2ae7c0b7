/**
 * The Explanation handle: a move-only pair (context, vtable) that an
 * explaining operation hands back. It is available when both halves are
 * set; it answers how many steps there are and renders any one of them
 * on demand, giving the step renderer a scratch arena emptied for the
 * duration of the call.
 *
 * Every operation makes both halves together, so the pair is one optional
 * context here; the vtable is determined by which operation made it.
 */
module Explanations {
  import opened Errors
  import opened Arenas
  import opened Explaining
  import BasicOps
  import DetOps
  import EchelonOps
  import Inverse
  import Minors
  import Vectors
  import CrossProduct
  import Projection

  /** The persisted context of each explaining operation. */
  datatype Ctx =
    | OfBinary(binary: BasicOps.BinaryCtx)
    | OfUnary(unary: BasicOps.UnaryCtx)
    | OfDet(det: DetOps.DetCtx)
    | OfReplace(replace: DetOps.ReplaceCtx)
    | OfEchelon(echelon: EchelonOps.EchelonCtx)
    | OfInverse(inverse: Inverse.InverseCtx)
    | OfCofactor(cofactor: Minors.CofactorCtx)
    | OfDot(dot: Vectors.DotCtx)
    | OfCross(cross: CrossProduct.CrossCtx)
    | OfProj(proj: Projection.ProjCtx)

  /** What each operation's renderer relies on in its context. */
  predicate CtxValid(c: Ctx) {
    match c
    case OfBinary(x) => BasicOps.BinaryCtxValid(x)
    case OfUnary(x) => BasicOps.UnaryCtxValid(x)
    case OfDet(x) => x.input.Wf() && x.det.Valid()
    case OfReplace(x) => DetOps.ReplaceCtxValid(x)
    case OfEchelon(x) => x.input.Wf()
    case OfInverse(x) => x.input.Wf()
    case OfCofactor(x) => Minors.CofactorCtxValid(x)
    case OfDot(x) => Vectors.DotCtxValid(x)
    case OfCross(x) => CrossProduct.CrossCtxValid(x)
    case OfProj(x) => Projection.ProjCtxValid(x)
  }

  /** The vtable's step_count entry. */
  function CtxStepCount(c: Ctx): (n: nat)
    ensures n >= 1
  {
    match c
    case OfBinary(x) => BasicOps.BinaryStepCount(x)
    case OfUnary(x) => BasicOps.UnaryStepCount(x)
    case OfDet(x) => DetOps.DetStepCount(x)
    case OfReplace(x) => DetOps.ReplaceStepCount(x)
    case OfEchelon(x) => EchelonOps.EchelonStepCount(x)
    case OfInverse(x) => Inverse.InverseStepCount(x)
    case OfCofactor(x) => Minors.CofactorStepCount(x)
    case OfDot(x) => Vectors.DotStepCount(x)
    case OfCross(x) => CrossProduct.CrossStepCount(x)
    case OfProj(x) => Projection.ProjStepCount(x)
  }

  /** The vtable's render_step entry. */
  function CtxRender(c: Ctx, index: nat, out: Buffers): (r: Rendered)
    requires CtxValid(c) && BuffersValid(out)
  {
    match c
    case OfBinary(x) => BasicOps.BinaryRender(x, index, out)
    case OfUnary(x) => BasicOps.UnaryRender(x, index, out)
    case OfDet(x) => DetOps.DetRender(x, index, out)
    case OfReplace(x) => DetOps.ReplaceRender(x, index, out)
    case OfEchelon(x) => EchelonOps.EchelonRender(x, index, out)
    case OfInverse(x) => Inverse.InverseRender(x, index, out)
    case OfCofactor(x) => Minors.CofactorRender(x, index, out)
    case OfDot(x) => Vectors.DotRender(x, index, out)
    case OfCross(x) => CrossProduct.CrossRender(x, index, out)
    case OfProj(x) => Projection.ProjRender(x, index, out)
  }

  datatype Explanation = Explanation(content: Option<Ctx>)
  {
    predicate Available() {
      content.Some?
    }

    predicate Valid() {
      content.Some? ==> CtxValid(content.value)
    }
  }

  /** What a move leaves in the moved-to and the moved-from handle. */
  datatype Moved = Moved(target: Explanation, source: Explanation)

  /** Explanation::make: a handle holding the given context. */
  function Make(c: Option<Ctx>): (e: Explanation)
    ensures e.Available() <==> c.Some?
    ensures c.Some? ==> e.content.value == c.value
  {
    Explanation(c)
  }

  /** The move constructor: the new handle takes the content, the old one is emptied. */
  function MoveConstruct(other: Explanation): (m: Moved)
    ensures m.target == other
    ensures !m.source.Available() && StepCount(m.source) == 0
  {
    Moved(other, Explanation(None))
  }

  /**
   * Move assignment. Assigning a handle to itself changes nothing;
   * otherwise the target's old context is released (no operation
   * registers a destroy hook, so nothing else happens), the target takes
   * the other's content and the other is emptied.
   */
  function MoveAssign(target: Explanation, other: Explanation, same: bool): (m: Moved)
    requires same ==> target == other
    ensures same ==> m.target == target && m.source == other
    ensures !same ==> m.target == other && !m.source.Available()
    ensures m.target.Available() <==> other.Available()
  {
    if same then Moved(target, other) else Moved(other, Explanation(None))
  }

  /** step_count: zero for an unavailable handle, otherwise the operation's own count. */
  function StepCount(e: Explanation): (n: nat)
    ensures n == 0 <==> !e.Available()
    ensures e.Available() ==> n == CtxStepCount(e.content.value)
  {
    if e.content.None? then 0 else CtxStepCount(e.content.value)
  }

  /** The buffers the renderer sees: the scratch arena, when there is one, emptied. */
  function Scoped(out: Buffers): (s: Buffers)
    requires BuffersValid(out)
    ensures BuffersValid(s) && s.caption == out.caption && s.latexCap == out.latexCap
    ensures s.scratch.Some? <==> out.scratch.Some?
    ensures s.scratch.Some? ==>
              s.scratch.value.used == 0 && s.scratch.value.base == out.scratch.value.base &&
              s.scratch.value.cap == out.scratch.value.cap
  {
    if out.scratch.Some? then out.(scratch := Some(EnterScratch(out.scratch.value))) else out
  }

  /**
   * render_step: Internal, writing nothing, for an unavailable handle;
   * otherwise the operation's renderer with the scratch arena (if any)
   * cleared first, so no step depends on what the arena held before.
   */
  function RenderStep(e: Explanation, index: nat, out: Buffers): (r: Rendered)
    requires e.Valid() && BuffersValid(out)
    ensures !e.Available() ==> r == Nothing(Internal)
    ensures e.Available() ==> r == CtxRender(e.content.value, index, Scoped(out))
  {
    if e.content.None? then Nothing(Internal) else CtxRender(e.content.value, index, Scoped(out))
  }

  /** Whether an operation's renderer checks the step index against its step count. */
  predicate ChecksIndex(c: Ctx) {
    !c.OfEchelon?
  }

  /**
   * Every index from the step count on is StepOutOfRange, given a scratch
   * arena, for every operation except echelon, whose renderer never
   * consults its step count.
   */
  lemma RenderBeyondCount(e: Explanation, index: nat, out: Buffers)
    requires e.Valid() && BuffersValid(out) && e.Available() && ChecksIndex(e.content.value)
    requires out.scratch.Some? && index >= StepCount(e)
    ensures RenderStep(e, index, out) == Nothing(StepOutOfRange)
  {
    match e.content.value
    case OfBinary(x) => assert index >= BasicOps.BinaryStepCount(x);
    case OfUnary(x) => assert index >= BasicOps.UnaryStepCount(x);
    case OfDet(x) => assert index >= DetOps.DetStepCount(x);
    case OfReplace(x) => assert index >= DetOps.ReplaceStepCount(x);
    case OfInverse(x) => assert index >= Inverse.InverseStepCount(x);
    case OfCofactor(x) => assert index >= Minors.CofactorStepCount(x);
    case OfDot(x) => assert index >= Vectors.DotStepCount(x);
    case OfCross(x) => assert index >= CrossProduct.CrossStepCount(x);
    case OfProj(x) => assert index >= Projection.ProjStepCount(x);
  }

  /**
   * The scratch scope makes a step independent of the arena's fill level:
   * two arenas over the same region render every step identically.
   */
  lemma ScratchLevelIrrelevant(e: Explanation, index: nat, out: Buffers, other: Arena)
    requires e.Valid() && BuffersValid(out) && out.scratch.Some? && other.Valid()
    requires other.base == out.scratch.value.base && other.cap == out.scratch.value.cap
    ensures RenderStep(e, index, out) == RenderStep(e, index, out.(scratch := Some(other)))
  {
    var s1 := Scoped(out);
    var s2 := Scoped(out.(scratch := Some(other)));
    assert s1.scratch.value == s2.scratch.value;
    assert s1 == s2;
  }
}
