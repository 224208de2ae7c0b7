/**
 * Elementary row operations (row_ops.hpp, row_reduction.hpp): the RowOp
 * record, the three in-place primitives apply_swap / apply_scale /
 * apply_addmul, and the op-counting OpObserver.
 *
 * apply_scale and apply_addmul walk the columns left to right and return on
 * the first overflow, so a failed call leaves the columns before the failing
 * one already updated; the model returns the partially updated matrix too.
 */
module RowOps {

  import opened Errors
  import opened Rationals
  import opened Matrices

  datatype RowOpKind = Swap | AddMul | Scale

  /**
   * RowOp: target_row, source_row and scalar are present for every kind, as
   * in the source (a default RowOp is a Swap of row 0 with itself, scalar 0).
   */
  datatype RowOp = RowOp(kind: RowOpKind, target: nat, source: nat, scalar: Rational)
  {
    predicate Wf() { target < 256 && source < 256 && scalar.Valid() }

    /** The op can be applied to m: its rows exist. */
    predicate FitsIn(m: Matrix) {
      Wf() && target < m.rows && (kind != Scale ==> source < m.rows)
    }

    /** The op can be undone: every swap, a scale by a nonzero scalar, an add-multiple of another row. */
    predicate Invertible() {
      match kind
      case Swap => true
      case Scale => !scalar.IsZero()
      case AddMul => target != source
    }
  }

  const DefaultOp := RowOp(Swap, 0, 0, Zero)

  // ---------------------------------------------------------------------
  // Primitives
  // ---------------------------------------------------------------------

  /** apply_swap: exchange two rows; nothing happens when they coincide. */
  function ApplySwap(m: Matrix, r1: nat, r2: nat): (x: Matrix)
    requires m.Wf() && r1 < m.rows && r2 < m.rows
    ensures x.Wf() && SameDim(x, m)
    ensures x.cells[r1] == m.cells[r2] && x.cells[r2] == m.cells[r1]
    ensures forall r :: 0 <= r < m.rows && r != r1 && r != r2 ==> x.cells[r] == m.cells[r]
  {
    if r1 == r2 then m
    else Matrix(m.rows, m.cols, m.cells[r1 := m.cells[r2]][r2 := m.cells[r1]])
  }

  /** Swapping the same pair twice restores the matrix. */
  lemma SwapInvolution(m: Matrix, r1: nat, r2: nat)
    requires m.Wf() && r1 < m.rows && r2 < m.rows
    ensures ApplySwap(ApplySwap(m, r1, r2), r1, r2) == m
  {
    var x := ApplySwap(ApplySwap(m, r1, r2), r1, r2);
    assert forall r :: 0 <= r < m.rows ==> x.cells[r] == m.cells[r];
  }

  /** apply_scale from column `col` on: R_row <- k * R_row, stopping at the first overflow. */
  function ScaleFrom(m: Matrix, row: nat, k: Rational, col: nat): (w: Written)
    requires m.Wf() && row < m.rows && k.Valid() && col <= m.cols
    ensures w.m.Wf() && SameDim(w.m, m)
    ensures w.ec == Ok || w.ec == Overflow
    ensures forall r :: 0 <= r < m.rows && r != row ==> w.m.cells[r] == m.cells[r]
    ensures forall c :: 0 <= c < col ==> w.m.cells[row][c] == m.cells[row][c]
    ensures w.ec == Ok <==> forall c :: col <= c < m.cols ==> Mul(m.cells[row][c], k).Success?
    ensures w.ec == Ok ==> forall c :: col <= c < m.cols ==> w.m.cells[row][c] == Mul(m.cells[row][c], k).value
    ensures forall c :: 0 <= c < m.cols ==>
              w.m.cells[row][c] == m.cells[row][c] ||
              (Mul(m.cells[row][c], k).Success? && w.m.cells[row][c] == Mul(m.cells[row][c], k).value)
    decreases m.cols - col
  {
    if col == m.cols then Written(m, Ok)
    else
      match Mul(m.cells[row][col], k)
      case Failure(e) => Written(m, e)
      case Success(v) =>
        var w := ScaleFrom(m.Set(row, col, v), row, k, col + 1);
        w
  }

  /** apply_scale(m, row, k) */
  function ApplyScale(m: Matrix, row: nat, k: Rational): (w: Written)
    requires m.Wf() && row < m.rows && k.Valid()
    ensures w.m.Wf() && SameDim(w.m, m)
    ensures w.ec == Ok || w.ec == Overflow
    ensures forall r :: 0 <= r < m.rows && r != row ==> w.m.cells[r] == m.cells[r]
    ensures w.ec == Ok <==> forall c :: 0 <= c < m.cols ==> Mul(m.cells[row][c], k).Success?
    ensures w.ec == Ok ==> ScaledRow(m, w.m, row, k)
  {
    ScaleFrom(m, row, k, 0)
  }

  /** apply_addmul from column `col` on: R_dst <- R_dst + k * R_src. */
  function AddMulFrom(m: Matrix, dst: nat, src: nat, k: Rational, col: nat): (w: Written)
    requires m.Wf() && dst < m.rows && src < m.rows && k.Valid() && col <= m.cols
    ensures w.m.Wf() && SameDim(w.m, m)
    ensures w.ec == Ok || w.ec == Overflow
    ensures forall r :: 0 <= r < m.rows && r != dst ==> w.m.cells[r] == m.cells[r]
    ensures forall c :: 0 <= c < col ==> w.m.cells[dst][c] == m.cells[dst][c]
    ensures w.ec == Ok <==> forall c :: col <= c < m.cols ==> AddMulEntry(m, dst, src, k, c).Success?
    ensures w.ec == Ok ==> forall c :: col <= c < m.cols ==>
              w.m.cells[dst][c] == AddMulEntry(m, dst, src, k, c).value
    ensures forall c :: 0 <= c < m.cols ==>
              w.m.cells[dst][c] == m.cells[dst][c] ||
              (AddMulEntry(m, dst, src, k, c).Success? && w.m.cells[dst][c] == AddMulEntry(m, dst, src, k, c).value)
    decreases m.cols - col
  {
    if col == m.cols then Written(m, Ok)
    else
      match AddMulEntry(m, dst, src, k, col)
      case Failure(e) => Written(m, e)
      case Success(v) =>
        var m' := m.Set(dst, col, v);
        assert forall c :: col < c < m.cols ==> AddMulEntry(m', dst, src, k, c) == AddMulEntry(m, dst, src, k, c);
        AddMulFrom(m', dst, src, k, col + 1)
  }

  /** One column of apply_addmul: dst[col] + src[col] * k, failing on overflow. */
  function AddMulEntry(m: Matrix, dst: nat, src: nat, k: Rational, col: nat): (r: Result<Rational>)
    requires m.Wf() && dst < m.rows && src < m.rows && k.Valid() && col < m.cols
    ensures r.Failure? ==> r.code == Overflow
    ensures r.Success? ==> r.value.Valid() && r.value.Val() == m.V(dst, col) + m.V(src, col) * k.Val()
  {
    var scaled :- Mul(m.cells[src][col], k);
    Add(m.cells[dst][col], scaled)
  }

  /** apply_addmul(m, dst, src, k) */
  function ApplyAddMul(m: Matrix, dst: nat, src: nat, k: Rational): (w: Written)
    requires m.Wf() && dst < m.rows && src < m.rows && k.Valid()
    ensures w.m.Wf() && SameDim(w.m, m)
    ensures w.ec == Ok || w.ec == Overflow
    ensures forall r :: 0 <= r < m.rows && r != dst ==> w.m.cells[r] == m.cells[r]
    ensures w.ec == Ok <==> forall c :: 0 <= c < m.cols ==> AddMulEntry(m, dst, src, k, c).Success?
    ensures w.ec == Ok ==> AddedRow(m, w.m, dst, src, k)
  {
    AddMulFrom(m, dst, src, k, 0)
  }

  /** Row `row` of m' is k times row `row` of m, by value. */
  ghost predicate ScaledRow(m: Matrix, m': Matrix, row: nat, k: Rational)
    requires m.Wf() && m'.Wf() && SameDim(m, m') && row < m.rows && k.Valid()
  {
    forall c :: 0 <= c < m.cols ==> m'.V(row, c) == m.V(row, c) * k.Val()
  }

  /** Row `row` of m' is row `row` of m plus f times row `src`, by value. */
  ghost predicate AddedRow(m: Matrix, m': Matrix, row: nat, src: nat, f: Rational)
    requires m.Wf() && m'.Wf() && SameDim(m, m') && row < m.rows && src < m.rows && f.Valid()
  {
    forall c :: 0 <= c < m.cols ==> m'.V(row, c) == m.V(row, c) + m.V(src, c) * f.Val()
  }

  /** The primitive an op denotes. */
  function Primitive(m: Matrix, op: RowOp): (w: Written)
    requires m.Wf() && op.FitsIn(m)
    ensures w.m.Wf() && SameDim(w.m, m)
    ensures w.ec == Ok || w.ec == Overflow
    ensures op.kind == Swap ==> w == Written(ApplySwap(m, op.target, op.source), Ok)
    ensures op.kind == Scale ==> w == ApplyScale(m, op.target, op.scalar)
    ensures op.kind == AddMul ==> w == ApplyAddMul(m, op.target, op.source, op.scalar)
  {
    match op.kind
    case Swap => Written(ApplySwap(m, op.target, op.source), Ok)
    case Scale => ApplyScale(m, op.target, op.scalar)
    case AddMul => ApplyAddMul(m, op.target, op.source, op.scalar)
  }

  /**
   * Primitive behind a recursion whose depth is never a literal, so that
   * replaying a trace does not drag the arithmetic of every primitive into
   * proofs about traces; ApplyDef expands it where needed.
   */
  function Apply(m: Matrix, op: RowOp): (w: Written)
    requires m.Wf() && op.FitsIn(m)
    ensures w.m.Wf() && SameDim(w.m, m)
    ensures w.ec == Ok || w.ec == Overflow
    ensures op.kind == Swap ==> w.ec == Ok
  {
    ApplyAt(m, op, op.target + 1)
  }

  function ApplyAt(m: Matrix, op: RowOp, depth: nat): (w: Written)
    requires m.Wf() && op.FitsIn(m)
    ensures w.m.Wf() && SameDim(w.m, m)
    ensures w.ec == Ok || w.ec == Overflow
    ensures op.kind == Swap ==> w.ec == Ok
    decreases depth
  {
    if depth == 0 then Primitive(m, op) else ApplyAt(m, op, depth - 1)
  }

  lemma {:induction false} ApplyAtDef(m: Matrix, op: RowOp, depth: nat)
    requires m.Wf() && op.FitsIn(m)
    ensures ApplyAt(m, op, depth) == Primitive(m, op)
    decreases depth
  {
    if depth > 0 {
      ApplyAtDef(m, op, depth - 1);
    }
  }

  lemma ApplyDef(m: Matrix, op: RowOp)
    requires m.Wf() && op.FitsIn(m)
    ensures Apply(m, op) == Primitive(m, op)
  {
    ApplyAtDef(m, op, op.target + 1);
  }

  /** The ops of a trace all fit a matrix of this shape. */
  predicate AllFit(ops: seq<RowOp>, m: Matrix) {
    forall i :: 0 <= i < |ops| ==> ops[i].FitsIn(m)
  }

  /** Every op of the trace can be undone. */
  predicate AllInvertible(ops: seq<RowOp>) {
    forall i :: 0 <= i < |ops| ==> ops[i].Invertible()
  }

  /** Two matrices that agree entry by entry, by value, are equal. */
  lemma SameValues(m1: Matrix, m2: Matrix)
    requires m1.Wf() && m2.Wf() && SameDim(m1, m2)
    requires forall i, c :: 0 <= i < m1.rows && 0 <= c < m1.cols ==> m1.V(i, c) == m2.V(i, c)
    ensures m1 == m2
  {
    forall i | 0 <= i < m1.rows
      ensures m1.cells[i] == m2.cells[i]
    {
      forall c | 0 <= c < m1.cols
        ensures m1.cells[i][c] == m2.cells[i][c]
      {
        assert m1.V(i, c) == m2.V(i, c);
        ValInjective(m1.cells[i][c], m2.cells[i][c]);
      }
    }
  }

  /** A swap is undone by itself. */
  lemma SwapInjective(m1: Matrix, m2: Matrix, r1: nat, r2: nat)
    requires m1.Wf() && m2.Wf() && SameDim(m1, m2) && r1 < m1.rows && r2 < m1.rows
    requires ApplySwap(m1, r1, r2) == ApplySwap(m2, r1, r2)
    ensures m1 == m2
  {
    SwapInvolution(m1, r1, r2);
    SwapInvolution(m2, r1, r2);
  }

  /** Two matrices that one nonzero scale of row `row` takes to the same matrix are equal. */
  lemma ScaledRowsAgree(m1: Matrix, m2: Matrix, w: Matrix, row: nat, k: Rational)
    requires m1.Wf() && m2.Wf() && w.Wf() && SameDim(m1, m2) && SameDim(m1, w) && row < m1.rows
    requires k.Valid() && !k.IsZero()
    requires ScaledRow(m1, w, row, k) && ScaledRow(m2, w, row, k)
    requires forall r :: 0 <= r < m1.rows && r != row ==> m1.cells[r] == w.cells[r] == m2.cells[r]
    ensures m1 == m2
  {
    ZeroOneByValue(k);
    forall i, c | 0 <= i < m1.rows && 0 <= c < m1.cols
      ensures m1.V(i, c) == m2.V(i, c)
    {
      if i == row {
        assert w.V(i, c) == m1.V(i, c) * k.Val() == m2.V(i, c) * k.Val();
      } else {
        assert m1.cells[i] == m2.cells[i];
      }
    }
    SameValues(m1, m2);
  }

  /** A scale by a nonzero k is undone by a scale by 1/k. */
  lemma ScaleInjective(m1: Matrix, m2: Matrix, row: nat, k: Rational)
    requires m1.Wf() && m2.Wf() && SameDim(m1, m2) && row < m1.rows && k.Valid() && !k.IsZero()
    requires ApplyScale(m1, row, k) == ApplyScale(m2, row, k) && ApplyScale(m1, row, k).ec == Ok
    ensures m1 == m2
  {
    ScaledRowsAgree(m1, m2, ApplyScale(m1, row, k).m, row, k);
  }

  /** Two matrices that one add of k times row `src` to row `dst` takes to the same matrix are equal. */
  lemma AddedRowsAgree(m1: Matrix, m2: Matrix, w: Matrix, dst: nat, src: nat, k: Rational)
    requires m1.Wf() && m2.Wf() && w.Wf() && SameDim(m1, m2) && SameDim(m1, w)
    requires dst < m1.rows && src < m1.rows && dst != src && k.Valid()
    requires AddedRow(m1, w, dst, src, k) && AddedRow(m2, w, dst, src, k)
    requires forall r :: 0 <= r < m1.rows && r != dst ==> m1.cells[r] == w.cells[r] == m2.cells[r]
    ensures m1 == m2
  {
    forall i, c | 0 <= i < m1.rows && 0 <= c < m1.cols
      ensures m1.V(i, c) == m2.V(i, c)
    {
      if i == dst {
        assert m1.cells[src] == m2.cells[src];
        assert m1.V(src, c) == m2.V(src, c);
        assert w.V(i, c) == m1.V(i, c) + m1.V(src, c) * k.Val() == m2.V(i, c) + m2.V(src, c) * k.Val();
      } else {
        assert m1.cells[i] == m2.cells[i];
      }
    }
    SameValues(m1, m2);
  }

  /** Adding k times another row is undone by adding -k times it. */
  lemma AddMulInjective(m1: Matrix, m2: Matrix, dst: nat, src: nat, k: Rational)
    requires m1.Wf() && m2.Wf() && SameDim(m1, m2) && dst < m1.rows && src < m1.rows && dst != src && k.Valid()
    requires ApplyAddMul(m1, dst, src, k) == ApplyAddMul(m2, dst, src, k) && ApplyAddMul(m1, dst, src, k).ec == Ok
    ensures m1 == m2
  {
    AddedRowsAgree(m1, m2, ApplyAddMul(m1, dst, src, k).m, dst, src, k);
  }

  /** An invertible op that succeeds on two matrices with the same result was given the same matrix. */
  lemma ApplyInjective(m1: Matrix, m2: Matrix, op: RowOp)
    requires m1.Wf() && m2.Wf() && SameDim(m1, m2) && op.FitsIn(m1) && op.Invertible()
    requires Apply(m1, op) == Apply(m2, op) && Apply(m1, op).ec == Ok
    ensures m1 == m2
  {
    ApplyDef(m1, op);
    ApplyDef(m2, op);
    match op.kind
    case Swap => SwapInjective(m1, m2, op.target, op.source);
    case Scale => ScaleInjective(m1, m2, op.target, op.scalar);
    case AddMul => AddMulInjective(m1, m2, op.target, op.source, op.scalar);
  }

  /**
   * Replaying invertible ops loses nothing: two matrices whose replays both
   * succeed with the same result were the same matrix.
   */
  lemma {:induction false} ReplayInjective(m1: Matrix, m2: Matrix, ops: seq<RowOp>)
    requires m1.Wf() && m2.Wf() && SameDim(m1, m2) && AllFit(ops, m1) && AllInvertible(ops)
    requires Replay(m1, ops).ec == Ok && Replay(m1, ops) == Replay(m2, ops)
    ensures m1 == m2
    decreases |ops|
  {
    if ops != [] {
      var init := ops[..|ops| - 1];
      var op := ops[|ops| - 1];
      assert AllFit(init, m1) && AllInvertible(init);
      var p1 := Replay(m1, init);
      var p2 := Replay(m2, init);
      assert p1.ec == Ok && p2.ec == Ok;
      ApplyInjective(p1.m, p2.m, op);
      ReplayInjective(m1, m2, init);
    }
  }

  /** Applies ops in order, stopping at the first failing one. */
  function Replay(m: Matrix, ops: seq<RowOp>): (w: Written)
    requires m.Wf() && AllFit(ops, m)
    ensures w.m.Wf() && SameDim(w.m, m)
    decreases |ops|
  {
    if ops == [] then Written(m, Ok)
    else
      var prefix := Replay(m, ops[..|ops| - 1]);
      if prefix.ec != Ok then prefix
      else Apply(prefix.m, ops[|ops| - 1])
  }

  /** Replaying a longer trace extends the replay of its prefix by one op. */
  lemma ReplaySnoc(m: Matrix, ops: seq<RowOp>, op: RowOp)
    requires m.Wf() && AllFit(ops, m) && op.FitsIn(m)
    ensures AllFit(ops + [op], m)
    ensures Replay(m, ops + [op]) ==
              (var p := Replay(m, ops); if p.ec != Ok then p else Apply(p.m, op))
  {
    assert (ops + [op])[..|ops|] == ops;
  }

  // ---------------------------------------------------------------------
  // OpObserver
  // ---------------------------------------------------------------------

  /** size_t(-1): the default target, which no run reaches. */
  const NO_TARGET: nat := 0xFFFF_FFFF_FFFF_FFFF

  datatype Observer = Observer(target: nat, count: nat, lastOp: RowOp, hasLast: bool)

  /** A fresh observer that stops after `target` ops. */
  function NewObserver(target: nat): (o: Observer)
    ensures o.count == 0 && !o.hasLast && o.target == target
  {
    Observer(target, 0, DefaultOp, false)
  }

  datatype Notified = Notified(obs: Observer, proceed: bool)

  /** OpObserver::on_op: count the op, remember it, and ask to stop at the target. */
  function OnOp(o: Observer, op: RowOp): (n: Notified)
    ensures n.obs.count == o.count + 1 && n.obs.lastOp == op && n.obs.hasLast
    ensures n.obs.target == o.target
    ensures !n.proceed <==> o.count + 1 == o.target
  {
    var count := o.count + 1;
    Notified(Observer(o.target, count, op, true), count != o.target)
  }
}
