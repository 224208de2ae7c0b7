/**
 * Human-readable captions of row ops (row_ops.cpp, row_op_caption).
 *
 * Rows are printed 1-based. A caption is written into a fresh fixed-capacity
 * buffer; it either fits entirely or the call fails with BufferTooSmall.
 */
module Captions {

  import opened Errors
  import opened Rationals
  import opened RowOps
  import opened Writers

  /** The caption of an op, as text. */
  function CaptionText(op: RowOp): string
  {
    var t := Decimal(op.target + 1);
    var s := Decimal(op.source + 1);
    match op.kind
    case Swap => "$R_{" + t + "} <-> R_{" + s + "}$"
    case Scale => "$R_{" + t + "} \\leftarrow (" + RationalText(op.scalar) + ") R_{" + t + "}$"
    case AddMul => "$R_{" + t + "} \\leftarrow R_{" + t + "} + (" + RationalText(op.scalar) + ") R_{" + s + "}$"
  }

  /**
   * row_op_caption(op, out, cap): BufferTooSmall for a missing or empty
   * buffer (a null buffer is one of capacity 0); otherwise the caption is
   * appended piece by piece to an emptied buffer, stopping at the first
   * piece that does not fit.
   */
  function RowOpCaption(op: RowOp, cap: nat): (r: Emitted)
    requires op.Wf()
    ensures r == Append(Fresh(cap), CaptionText(op))
    ensures r.ec == Ok <==> |CaptionText(op)| < cap
    ensures r.ec != Ok ==> r.ec == BufferTooSmall && |r.w.text| == Room(cap)
  {
    var w := Fresh(cap);
    if cap == 0 then
      assert Append(w, CaptionText(op)).ec == BufferTooSmall;
      Emitted(w, BufferTooSmall)
    else
      match op.kind
      case Swap => SwapCaption(w, op)
      case Scale => ScaleCaption(w, op)
      case AddMul => AddMulCaption(w, op)
  }

  /** Characters a fresh buffer of `cap` bytes can take. */
  function Room(cap: nat): nat { if cap == 0 then 0 else cap - 1 }

  function SwapCaption(w: Writer, op: RowOp): (r: Emitted)
    requires w.Valid() && op.Wf() && op.kind == Swap
    ensures r == Append(w, CaptionText(op))
  {
    var t := Decimal(op.target + 1);
    var s := Decimal(op.source + 1);
    var e1 := Append(w, "$R_{");
    var e2 := if e1.ec != Ok then e1 else AppendIndex1(e1.w, op.target);
    var e3 := AppendThen(e2, "} <-> R_{");
    var e4 := if e3.ec != Ok then e3 else AppendIndex1(e3.w, op.source);
    var e5 := AppendThen(e4, "}$");
    AppendChain(w, "$R_{", t);
    AppendChain(w, "$R_{" + t, "} <-> R_{");
    AppendChain(w, "$R_{" + t + "} <-> R_{", s);
    AppendChain(w, "$R_{" + t + "} <-> R_{" + s, "}$");
    e5
  }

  function ScaleCaption(w: Writer, op: RowOp): (r: Emitted)
    requires w.Valid() && op.Wf() && op.kind == Scale
    ensures r == Append(w, CaptionText(op))
  {
    var t := Decimal(op.target + 1);
    var k := RationalText(op.scalar);
    var e1 := Append(w, "$R_{");
    var e2 := if e1.ec != Ok then e1 else AppendIndex1(e1.w, op.target);
    var e3 := AppendThen(e2, "} \\leftarrow (");
    var e4 := if e3.ec != Ok then e3 else AppendRationalLatex(e3.w, op.scalar);
    var e5 := AppendThen(e4, ") R_{");
    var e6 := if e5.ec != Ok then e5 else AppendIndex1(e5.w, op.target);
    var e7 := AppendThen(e6, "}$");
    AppendChain(w, "$R_{", t);
    AppendChain(w, "$R_{" + t, "} \\leftarrow (");
    AppendChain(w, "$R_{" + t + "} \\leftarrow (", k);
    AppendChain(w, "$R_{" + t + "} \\leftarrow (" + k, ") R_{");
    AppendChain(w, "$R_{" + t + "} \\leftarrow (" + k + ") R_{", t);
    AppendChain(w, "$R_{" + t + "} \\leftarrow (" + k + ") R_{" + t, "}$");
    e7
  }

  function AddMulCaption(w: Writer, op: RowOp): (r: Emitted)
    requires w.Valid() && op.Wf() && op.kind == AddMul
    ensures r == Append(w, CaptionText(op))
  {
    var t := Decimal(op.target + 1);
    var s := Decimal(op.source + 1);
    var k := RationalText(op.scalar);
    var e1 := Append(w, "$R_{");
    var e2 := if e1.ec != Ok then e1 else AppendIndex1(e1.w, op.target);
    var e3 := AppendThen(e2, "} \\leftarrow R_{");
    var e4 := if e3.ec != Ok then e3 else AppendIndex1(e3.w, op.target);
    var e5 := AppendThen(e4, "} + (");
    var e6 := if e5.ec != Ok then e5 else AppendRationalLatex(e5.w, op.scalar);
    var e7 := AppendThen(e6, ") R_{");
    var e8 := if e7.ec != Ok then e7 else AppendIndex1(e7.w, op.source);
    var e9 := AppendThen(e8, "}$");
    var p1 := "$R_{";
    var p2 := p1 + t;
    var p3 := p2 + "} \\leftarrow R_{";
    var p4 := p3 + t;
    var p5 := p4 + "} + (";
    var p6 := p5 + k;
    var p7 := p6 + ") R_{";
    var p8 := p7 + s;
    AppendChain(w, p1, t);
    AppendChain(w, p2, "} \\leftarrow R_{");
    AppendChain(w, p3, t);
    AppendChain(w, p4, "} + (");
    AppendChain(w, p5, k);
    AppendChain(w, p6, ") R_{");
    AppendChain(w, p7, s);
    AppendChain(w, p8, "}$");
    e9
  }
}
