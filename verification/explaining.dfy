/**
 * What the operations with explanations share (explanation.hpp, ops.hpp):
 * the options that ask for an explanation, the buffers a step is rendered
 * into, and the transactional allocation of an explanation context in the
 * long-lived `persist` arena.
 */
module Explaining {

  import opened Errors
  import opened Arenas
  import opened Writers

  /**
   * ExplainOptions: `enable` asks for an explanation, `persist` is the arena
   * it lives in (None for a null pointer). `hasSlot` says whether the caller
   * passed an Explanation to fill (a non-null `expl`).
   */
  datatype Options = Options(enable: bool, persist: Option<Arena>, hasSlot: bool)

  predicate OptionsValid(opts: Options) {
    opts.persist.Some? ==> opts.persist.value.Valid()
  }

  /** No explanation asked for. */
  const NoExplain := Options(false, None, false)

  /**
   * StepRenderBuffers: the caption buffer's capacity (None for a null
   * caption pointer, which the renderers skip), the LaTeX buffer's capacity
   * (a null LaTeX pointer behaves as capacity 0: every write fails with
   * BufferTooSmall) and the scratch arena (None for a null pointer).
   */
  datatype Buffers = Buffers(caption: Option<nat>, latexCap: nat, scratch: Option<Arena>)

  predicate BuffersValid(out: Buffers) {
    out.scratch.Some? ==> out.scratch.value.Valid()
  }

  /** What rendering a step leaves: the error code and the text in each buffer. */
  datatype Rendered = Rendered(ec: ErrorCode, caption: string, latex: string)

  /** A render that stops before writing anything. */
  function Nothing(ec: ErrorCode): (r: Rendered)
    ensures r.ec == ec && r.caption == [] && r.latex == []
  {
    Rendered(ec, [], [])
  }

  /** The caption and LaTeX text so far, with the LaTeX writer's outcome. */
  function WithLatex(caption: string, e: Emitted): (r: Rendered)
    ensures r.ec == e.ec && r.caption == caption && r.latex == e.w.text
  {
    Rendered(e.ec, caption, e.w.text)
  }

  /** The persist arena after an attempt to store a context, and the outcome. */
  datatype Persisted = Persisted(ec: ErrorCode, persist: Option<Arena>)

  /**
   * The explanation epilogue of every operation: with `enable` set, a null
   * persist arena or a null explanation slot is Internal; then an ArenaScope
   * is opened, the context is allocated (Overflow if the arena refuses, and
   * the scope rolls the arena back), and the scope is committed.
   */
  function Persist(opts: Options, size: nat, align: nat): (r: Persisted)
    requires OptionsValid(opts) && 0 < size < WORD && IsPow2(align) && align < WORD
    ensures !opts.enable ==> r == Persisted(Ok, opts.persist)
    ensures opts.enable && (opts.persist.None? || !opts.hasSlot) ==> r == Persisted(Internal, opts.persist)
    ensures opts.enable && opts.persist.Some? && opts.hasSlot ==>
              var al := Allocate(opts.persist.value, size, align);
              (r.ec == Ok <==> al.Some?) &&
              (r.ec != Ok ==> r == Persisted(Overflow, opts.persist)) &&
              (r.ec == Ok ==> r.persist == Some(al.value.arena))
    // a failed attempt leaves the persist arena as it was
    ensures r.ec != Ok ==> r.persist == opts.persist
  {
    if !opts.enable then Persisted(Ok, opts.persist)
    else if opts.persist.None? || !opts.hasSlot then Persisted(Internal, opts.persist)
    else
      var a := opts.persist.value;
      var tx := BeginScope(a);
      match Allocate(a, size, align)
      case None => Persisted(Overflow, Some(EndScope(tx, a)))
      case Some(al) => Persisted(Ok, Some(EndScope(Commit(tx), al.arena)))
  }
}
