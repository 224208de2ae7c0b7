/**
 * Row reduction to echelon form (row_reduction.cpp, echelon_apply).
 *
 * Columns are visited left to right while pivot rows remain. In each column
 * the pivot is the first nonzero entry at or below the current pivot row; a
 * column without one is skipped. The pivot row is swapped into place, then
 * normalised -- RREF scales it by 1/pivot (unless the pivot is already 1), REF
 * only flips its sign when the pivot is negative -- and the pivot column is
 * cleared: in every other row for RREF, below the pivot for REF. Every op is
 * reported to the observer, which may stop the run right after it.
 */
module Echelon {

  import opened Errors
  import opened Rationals
  import opened Matrices
  import opened RowOps
  import opened Kernels

  datatype EchelonKind = Ref | Rref

  /** The error code echelon_apply returns for an outcome (a stop is a success). */
  function Code(f: Flow): (ec: ErrorCode)
    ensures ec == Ok <==> !f.Fail? || f.code == Ok
  {
    if f.Fail? then f.code else Ok
  }

  /** Bring the pivot row `best` up to `prow`; a swap is applied and reported only when they differ. */
  function SwapStep(s: KState, prow: nat, best: nat): (r: Run)
    requires s.m.Wf() && Counted(s) && prow <= best < s.m.rows
    ensures Steps(s, r.s) && Replays(s, r)
    ensures r.flow == Go || r.flow == Stop
    ensures s.obs.None? ==> r.flow == Go
    ensures |r.s.trace| <= |s.trace| + 1
    ensures best == prow ==> r == Run(s, Go)
    ensures r.s.m.cells[prow] == s.m.cells[best] && r.s.m.cells[best] == s.m.cells[prow]
    ensures forall i :: 0 <= i < s.m.rows && i != prow && i != best ==> r.s.m.cells[i] == s.m.cells[i]
    ensures best != prow ==> r.s.trace == s.trace + [RowOp(Swap, prow, best, Zero)]
  {
    if best == prow then
      ReplaysNothing(s, Run(s, Go));
      Run(s, Go)
    else
      CoprimeOneZero();
      var op := RowOp(Swap, prow, best, Zero);
      ApplyDef(s.m, op);
      ReplaysRecord(s, op, ApplySwap(s.m, prow, best));
      Record(s, op, ApplySwap(s.m, prow, best))
  }

  /**
   * Normalise the pivot row. RREF: unless the pivot is exactly 1, scale by
   * from_int(1) / pivot. REF: if the pivot is negative, scale by -1.
   * Afterwards an RREF pivot is exactly 1 and a REF pivot is positive.
   */
  function NormalizeStep(s: KState, kind: EchelonKind, col: nat, prow: nat): (r: Run)
    requires s.m.Wf() && Counted(s) && col < s.m.cols && prow < s.m.rows
    requires !s.m.cells[prow][col].IsZero()
    ensures Steps(s, r.s) && Replays(s, r)
    ensures r.flow.Fail? ==> r.flow.code == Overflow
    ensures s.obs.None? ==> r.flow != Stop
    ensures |r.s.trace| <= |s.trace| + 1
    ensures forall i :: 0 <= i < s.m.rows && i != prow ==> r.s.m.cells[i] == s.m.cells[i]
    ensures r.flow == Go && kind == Rref ==> r.s.m.cells[prow][col] == One
    ensures r.flow == Go && kind == Ref ==> r.s.m.cells[prow][col].num > 0
    ensures r.flow == Go ==> ZerosKept(s.m, r.s.m, prow)
    ensures kind == Rref && s.m.cells[prow][col].IsOne() ==> r == Run(s, Go)
    ensures kind == Ref && s.m.cells[prow][col].num > 0 ==> r == Run(s, Go)
  {
    if kind == Rref then NormalizeRref(s, col, prow) else NormalizeRef(s, col, prow)
  }

  /** The RREF half of NormalizeStep. */
  function NormalizeRref(s: KState, col: nat, prow: nat): (r: Run)
    requires s.m.Wf() && Counted(s) && col < s.m.cols && prow < s.m.rows
    requires !s.m.cells[prow][col].IsZero()
    ensures Steps(s, r.s) && Replays(s, r)
    ensures r.flow.Fail? ==> r.flow.code == Overflow
    ensures s.obs.None? ==> r.flow != Stop
    ensures |r.s.trace| <= |s.trace| + 1
    ensures forall i :: 0 <= i < s.m.rows && i != prow ==> r.s.m.cells[i] == s.m.cells[i]
    ensures r.flow == Go ==> r.s.m.cells[prow][col] == One
    ensures r.flow == Go ==> ZerosKept(s.m, r.s.m, prow)
    ensures s.m.cells[prow][col].IsOne() ==> r == Run(s, Go)
  {
    var pivot := s.m.cells[prow][col];
    ZeroOneByValue(pivot);
    if pivot.IsOne() then
      ReplaysNothing(s, Run(s, Go));
      Run(s, Go)
    else
      match Div(FromInt(1), pivot)
      case Failure(e) =>
        ReplaysFail(s, Run(s, Fail(e)));
        Run(s, Fail(e))
      case Success(inv) =>
        ZeroOneByValue(inv);
        var r := ScaleStep(s, prow, inv);
        PivotAfterScale(s.m, r, Rref, col, prow, inv);
        r
  }

  /** The REF half of NormalizeStep. */
  function NormalizeRef(s: KState, col: nat, prow: nat): (r: Run)
    requires s.m.Wf() && Counted(s) && col < s.m.cols && prow < s.m.rows
    requires !s.m.cells[prow][col].IsZero()
    ensures Steps(s, r.s) && Replays(s, r)
    ensures r.flow.Fail? ==> r.flow.code == Overflow
    ensures s.obs.None? ==> r.flow != Stop
    ensures |r.s.trace| <= |s.trace| + 1
    ensures forall i :: 0 <= i < s.m.rows && i != prow ==> r.s.m.cells[i] == s.m.cells[i]
    ensures r.flow == Go ==> r.s.m.cells[prow][col].num > 0
    ensures r.flow == Go ==> ZerosKept(s.m, r.s.m, prow)
    ensures s.m.cells[prow][col].num > 0 ==> r == Run(s, Go)
  {
    var pivot := s.m.cells[prow][col];
    if pivot.num >= 0 then
      ReplaysNothing(s, Run(s, Go));
      Run(s, Go)
    else
      var r := ScaleStep(s, prow, FromInt(-1));
      ValSign(pivot);
      PivotAfterScale(s.m, r, Ref, col, prow, FromInt(-1));
      r
  }

  /** apply_scale on the pivot row, then report the Scale op (source row 0, as a default RowOp has). */
  function ScaleStep(s: KState, prow: nat, k: Rational): (r: Run)
    requires s.m.Wf() && Counted(s) && prow < s.m.rows && k.Valid() && !k.IsZero()
    ensures Steps(s, r.s) && Replays(s, r)
    ensures r.flow.Fail? ==> r.flow.code == Overflow
    ensures s.obs.None? ==> r.flow != Stop
    ensures |r.s.trace| <= |s.trace| + 1
    ensures forall i :: 0 <= i < s.m.rows && i != prow ==> r.s.m.cells[i] == s.m.cells[i]
    ensures !r.flow.Fail? ==> ScaledRow(s.m, r.s.m, prow, k)
    ensures !r.flow.Fail? ==> ZerosKept(s.m, r.s.m, prow)
  {
    var w := ApplyScale(s.m, prow, k);
    if w.ec != Ok then
      ReplaysFail(s, Run(s.(m := w.m), Fail(w.ec)));
      Run(s.(m := w.m), Fail(w.ec))
    else
      var op := RowOp(Scale, prow, 0, k);
      ApplyDef(s.m, op);
      ReplaysRecord(s, op, w.m);
      var r := Record(s, op, w.m);
      assert r.s.m == w.m;
      ScaledZeros(s.m, w.m, prow, k);
      r
  }

  /**
   * Row `row` of m' is zero wherever row `row` of m is; every other row is
   * unchanged. What normalising the pivot row leaves of the columns already
   * processed.
   */
  predicate ZerosKept(m: Matrix, m': Matrix, row: nat)
    requires m.Wf() && m'.Wf() && SameDim(m, m') && row < m.rows
  {
    (forall c :: 0 <= c < m.cols && m.cells[row][c].IsZero() ==> m'.cells[row][c].IsZero()) &&
    (forall i :: 0 <= i < m.rows && i != row ==> m'.cells[i] == m.cells[i])
  }

  /** Scaling a row keeps its zeros. */
  lemma ScaledZeros(m: Matrix, m': Matrix, row: nat, k: Rational)
    requires m.Wf() && m'.Wf() && SameDim(m, m') && row < m.rows && k.Valid()
    requires ScaledRow(m, m', row, k)
    requires forall i :: 0 <= i < m.rows && i != row ==> m'.cells[i] == m.cells[i]
    ensures ZerosKept(m, m', row)
  {
    forall c | 0 <= c < m.cols && m.cells[row][c].IsZero()
      ensures m'.cells[row][c].IsZero()
    {
      ZeroOneByValue(m.cells[row][c]);
      assert m'.V(row, c) == m.V(row, c) * k.Val();
      ZeroOneByValue(m'.cells[row][c]);
    }
  }

  /** The value argument behind NormalizeStep's pivot guarantees. */
  lemma PivotAfterScale(m: Matrix, r: Run, kind: EchelonKind, col: nat, prow: nat, k: Rational)
    requires m.Wf() && r.s.m.Wf() && SameDim(m, r.s.m) && col < m.cols && prow < m.rows && k.Valid()
    requires !m.cells[prow][col].IsZero()
    requires !r.flow.Fail? ==> ScaledRow(m, r.s.m, prow, k)
    requires kind == Rref ==> Div(FromInt(1), m.cells[prow][col]) == Success(k)
    requires kind == Ref ==> m.cells[prow][col].num < 0 && k == FromInt(-1)
    ensures r.flow == Go && kind == Rref ==> r.s.m.cells[prow][col] == One
    ensures r.flow == Go && kind == Ref ==> r.s.m.cells[prow][col].num > 0
  {
    if r.flow == Go {
      assert r.s.m.V(prow, col) == m.V(prow, col) * k.Val();
      if kind == Rref {
        ScaledToOne(m.cells[prow][col], r.s.m.cells[prow][col], k);
      } else {
        ScaledPositive(m.cells[prow][col], r.s.m.cells[prow][col], k);
      }
    }
  }

  /** p times 1 / p is One. */
  lemma ScaledToOne(p: Rational, q: Rational, k: Rational)
    requires p.Valid() && q.Valid() && k.Valid() && !p.IsZero()
    requires Div(FromInt(1), p) == Success(k) && q.Val() == p.Val() * k.Val()
    ensures q == One
  {
    ZeroOneByValue(p);
    assert k.Val() == 1.0 / p.Val();
    ZeroOneByValue(q);
  }

  /** A negative p times -1 has a positive numerator. */
  lemma ScaledPositive(p: Rational, q: Rational, k: Rational)
    requires p.Valid() && q.Valid() && p.num < 0 && k == FromInt(-1) && q.Val() == p.Val() * k.Val()
    ensures q.num > 0
  {
    ValSign(p);
    ValSign(q);
  }

  /** The multiple of the pivot row that clears `row`: -entry (RREF) or -entry / pivot (REF). */
  function Factor(m: Matrix, kind: EchelonKind, col: nat, prow: nat, row: nat): (r: Result<Rational>)
    requires m.Wf() && col < m.cols && prow < m.rows && row < m.rows
    requires !m.cells[prow][col].IsZero()
    ensures r.Failure? ==> r.code == Overflow
    ensures r.Success? ==> r.value.Valid()
  {
    var f :- Neg(m.cells[row][col]);
    if kind == Ref then Div(f, m.cells[prow][col]) else Success(f)
  }

  /** The value of the factor (kept out of Factor's contract so callers stay linear). */
  lemma FactorValue(m: Matrix, kind: EchelonKind, col: nat, prow: nat, row: nat)
    requires m.Wf() && col < m.cols && prow < m.rows && row < m.rows
    requires !m.cells[prow][col].IsZero()
    ensures var r := Factor(m, kind, col, prow, row);
            r.Success? && kind == Rref ==> r.value.Val() == -m.V(row, col)
    ensures var r := Factor(m, kind, col, prow, row);
            r.Success? && kind == Ref ==>
              m.V(prow, col) != 0.0 && r.value.Val() == -m.V(row, col) / m.V(prow, col)
  {
  }

  /** entry + pivot * factor vanishes when the factor is -entry / pivot. */
  lemma Cancels(e: real, p: real, f: real)
    requires p != 0.0 && f == -e / p
    ensures e + p * f == 0.0
  {
  }

  /**
   * The elimination loop from `row` on: every row other than the pivot row
   * (REF: only rows below it) with a nonzero entry in the pivot column gets
   * factor * pivot row added.
   */
  function EliminateFrom(s: KState, kind: EchelonKind, col: nat, prow: nat, row: nat): (r: Run)
    requires s.m.Wf() && Counted(s) && col < s.m.cols && prow < s.m.rows && row <= s.m.rows
    requires !s.m.cells[prow][col].IsZero()
    ensures Steps(s, r.s) && Replays(s, r)
    ensures r.flow.Fail? ==> r.flow.code == Overflow
    ensures s.obs.None? ==> r.flow != Stop
    ensures r.s.m.cells[prow] == s.m.cells[prow]
    decreases s.m.rows - row, 1
  {
    if row == s.m.rows then
      ReplaysNothing(s, Run(s, Go));
      Run(s, Go)
    else if row == prow || (kind == Ref && row < prow) || s.m.cells[row][col].IsZero() then
      EliminateFrom(s, kind, col, prow, row + 1)
    else
      EliminateThen(s, kind, col, prow, row)
  }

  /** A row the loop does not skip: clear it, then carry on below it. */
  function EliminateThen(s: KState, kind: EchelonKind, col: nat, prow: nat, row: nat): (r: Run)
    requires s.m.Wf() && Counted(s) && col < s.m.cols && prow < s.m.rows && row < s.m.rows
    requires row != prow && !s.m.cells[prow][col].IsZero()
    ensures Steps(s, r.s) && Replays(s, r)
    ensures r.flow.Fail? ==> r.flow.code == Overflow
    ensures s.obs.None? ==> r.flow != Stop
    ensures r.s.m.cells[prow] == s.m.cells[prow]
    decreases s.m.rows - row, 0
  {
    var a := EliminateRow(s, kind, col, prow, row);
    if a.flow != Go then a
    else
      var r := EliminateFrom(a.s, kind, col, prow, row + 1);
      Chain(s, a, r);
      r
  }

  /**
   * Column `col` is zero from row `from` on in every row the elimination loop
   * is responsible for: all rows but the pivot row for RREF, the rows below it
   * for REF.
   */
  predicate Cleared(m: Matrix, kind: EchelonKind, col: nat, prow: nat, from: nat)
    requires m.Wf() && col < m.cols
  {
    forall i :: from <= i < m.rows && i != prow && (kind == Rref || i > prow) ==> m.cells[i][col].IsZero()
  }

  /** What the elimination loop achieves once it carried on to the end, given a normalised pivot. */
  lemma {:induction false} EliminateClears(s: KState, kind: EchelonKind, col: nat, prow: nat, row: nat)
    requires s.m.Wf() && Counted(s) && col < s.m.cols && prow < s.m.rows && row <= s.m.rows
    requires !s.m.cells[prow][col].IsZero()
    ensures EliminateFrom(s, kind, col, prow, row).flow == Go && (kind == Ref || s.m.cells[prow][col] == One) ==>
              Cleared(EliminateFrom(s, kind, col, prow, row).s.m, kind, col, prow, row)
    decreases s.m.rows - row, 1
  {
    if row == s.m.rows {
    } else if row == prow || (kind == Ref && row < prow) || s.m.cells[row][col].IsZero() {
      EliminateClears(s, kind, col, prow, row + 1);
      EliminateKeeps(s, kind, col, prow, row + 1);
      var r := EliminateFrom(s, kind, col, prow, row + 1);
      assert r == EliminateFrom(s, kind, col, prow, row);
      assert r.s.m.cells[row] == s.m.cells[row];
    } else {
      EliminateThenClears(s, kind, col, prow, row);
      assert EliminateFrom(s, kind, col, prow, row) == EliminateThen(s, kind, col, prow, row);
    }
  }

  lemma {:induction false} EliminateThenClears(s: KState, kind: EchelonKind, col: nat, prow: nat, row: nat)
    requires s.m.Wf() && Counted(s) && col < s.m.cols && prow < s.m.rows && row < s.m.rows
    requires row != prow && !s.m.cells[prow][col].IsZero()
    ensures EliminateThen(s, kind, col, prow, row).flow == Go && (kind == Ref || s.m.cells[prow][col] == One) ==>
              Cleared(EliminateThen(s, kind, col, prow, row).s.m, kind, col, prow, row)
    decreases s.m.rows - row, 0
  {
    var a := EliminateRow(s, kind, col, prow, row);
    if a.flow == Go {
      NextRowsClear(s, a, kind, col, prow, row);
    }
  }

  /** Clearing `row` and then the rows after it clears the column from `row` on. */
  lemma {:induction false} NextRowsClear(s: KState, a: Run, kind: EchelonKind, col: nat, prow: nat, row: nat)
    requires s.m.Wf() && col < s.m.cols && prow < s.m.rows && row < s.m.rows && row != prow
    requires Steps(s, a.s) && a.flow == Go && a.s.m.cells[prow] == s.m.cells[prow]
    requires !s.m.cells[prow][col].IsZero()
    requires kind == Ref || s.m.cells[prow][col] == One ==> a.s.m.cells[row][col].IsZero()
    ensures EliminateFrom(a.s, kind, col, prow, row + 1).flow == Go && (kind == Ref || s.m.cells[prow][col] == One) ==>
              Cleared(EliminateFrom(a.s, kind, col, prow, row + 1).s.m, kind, col, prow, row)
    decreases s.m.rows - row, 0, 0
  {
    EliminateClears(a.s, kind, col, prow, row + 1);
    EliminateKeeps(a.s, kind, col, prow, row + 1);
    var r := EliminateFrom(a.s, kind, col, prow, row + 1);
    assert r.s.m.cells[row] == a.s.m.cells[row];
  }

  /** The loop from `row` on leaves the rows above `row` alone. */
  lemma {:induction false} EliminateKeeps(s: KState, kind: EchelonKind, col: nat, prow: nat, row: nat)
    requires s.m.Wf() && Counted(s) && col < s.m.cols && prow < s.m.rows && row <= s.m.rows
    requires !s.m.cells[prow][col].IsZero()
    ensures forall i :: 0 <= i < row ==> EliminateFrom(s, kind, col, prow, row).s.m.cells[i] == s.m.cells[i]
    decreases s.m.rows - row, 1
  {
    if row == s.m.rows {
    } else if row == prow || (kind == Ref && row < prow) || s.m.cells[row][col].IsZero() {
      EliminateKeeps(s, kind, col, prow, row + 1);
    } else {
      EliminateThenKeeps(s, kind, col, prow, row);
    }
  }

  lemma {:induction false} EliminateThenKeeps(s: KState, kind: EchelonKind, col: nat, prow: nat, row: nat)
    requires s.m.Wf() && Counted(s) && col < s.m.cols && prow < s.m.rows && row < s.m.rows
    requires row != prow && !s.m.cells[prow][col].IsZero()
    ensures forall i :: 0 <= i < row ==> EliminateThen(s, kind, col, prow, row).s.m.cells[i] == s.m.cells[i]
    decreases s.m.rows - row, 0
  {
    var a := EliminateRow(s, kind, col, prow, row);
    if a.flow == Go {
      assert a.s.m.cells[prow] == s.m.cells[prow];
      EliminateKeeps(a.s, kind, col, prow, row + 1);
    }
  }

  /** The loop from `row` on changes nothing in a column where the pivot row is zero. */
  lemma {:induction false} EliminateKeepsColumns(s: KState, kind: EchelonKind, col: nat, prow: nat, row: nat)
    requires s.m.Wf() && Counted(s) && col < s.m.cols && prow < s.m.rows && row <= s.m.rows
    requires !s.m.cells[prow][col].IsZero()
    ensures var r := EliminateFrom(s, kind, col, prow, row);
            r.flow == Go ==> ColumnsKept(s.m, r.s.m, prow)
    decreases s.m.rows - row, 1, 0
  {
    if row == s.m.rows {
      ColumnsKeptDef(s.m, s.m, prow);
    } else if row == prow || (kind == Ref && row < prow) || s.m.cells[row][col].IsZero() {
      EliminateKeepsColumns(s, kind, col, prow, row + 1);
    } else {
      EliminateThenKeepsColumns(s, kind, col, prow, row);
    }
  }

  lemma {:induction false} EliminateThenKeepsColumns(s: KState, kind: EchelonKind, col: nat, prow: nat, row: nat)
    requires s.m.Wf() && Counted(s) && col < s.m.cols && prow < s.m.rows && row < s.m.rows
    requires row != prow && !s.m.cells[prow][col].IsZero()
    ensures var r := EliminateThen(s, kind, col, prow, row);
            r.flow == Go ==> ColumnsKept(s.m, r.s.m, prow)
    decreases s.m.rows - row, 0, 1
  {
    var a := EliminateRow(s, kind, col, prow, row);
    if a.flow == Go {
      RestKeepsColumns(s, a, kind, col, prow, row);
    }
  }

  /** Row `row` done, the rest of the loop keeps the columns the pivot row is zero in. */
  lemma {:induction false} RestKeepsColumns(s: KState, a: Run, kind: EchelonKind, col: nat, prow: nat, row: nat)
    requires s.m.Wf() && Counted(s) && col < s.m.cols && prow < s.m.rows && row < s.m.rows
    requires row != prow && !s.m.cells[prow][col].IsZero()
    requires a == EliminateRow(s, kind, col, prow, row) && a.flow == Go
    ensures var r := EliminateFrom(a.s, kind, col, prow, row + 1);
            r.flow == Go ==> ColumnsKept(s.m, r.s.m, prow)
    decreases s.m.rows - row, 0, 0
  {
    assert a.s.m.cells[prow] == s.m.cells[prow];
    EliminateKeepsColumns(a.s, kind, col, prow, row + 1);
    var r := EliminateFrom(a.s, kind, col, prow, row + 1);
    if r.flow == Go {
      ColumnsKeptTrans(s.m, a.s.m, r.s.m, prow);
    }
  }

  lemma ColumnsKeptTrans(m1: Matrix, m2: Matrix, m3: Matrix, prow: nat)
    requires m1.Wf() && m2.Wf() && m3.Wf() && SameDim(m1, m2) && SameDim(m2, m3) && prow < m1.rows
    requires ColumnsKept(m1, m2, prow) && ColumnsKept(m2, m3, prow) && m2.cells[prow] == m1.cells[prow]
    ensures ColumnsKept(m1, m3, prow)
  {
    ColumnsKeptDef(m1, m2, prow);
    ColumnsKeptDef(m2, m3, prow);
    ColumnsKeptDef(m1, m3, prow);
  }

  /** The loop from `row` on applies at most one op per remaining row. */
  lemma {:induction false} EliminateBound(s: KState, kind: EchelonKind, col: nat, prow: nat, row: nat)
    requires s.m.Wf() && Counted(s) && col < s.m.cols && prow < s.m.rows && row <= s.m.rows
    requires !s.m.cells[prow][col].IsZero()
    ensures |EliminateFrom(s, kind, col, prow, row).s.trace| <= |s.trace| + (s.m.rows - row)
    decreases s.m.rows - row, 1
  {
    if row == s.m.rows {
    } else if row == prow || (kind == Ref && row < prow) || s.m.cells[row][col].IsZero() {
      EliminateBound(s, kind, col, prow, row + 1);
    } else {
      EliminateThenBound(s, kind, col, prow, row);
    }
  }

  lemma {:induction false} EliminateThenBound(s: KState, kind: EchelonKind, col: nat, prow: nat, row: nat)
    requires s.m.Wf() && Counted(s) && col < s.m.cols && prow < s.m.rows && row < s.m.rows
    requires row != prow && !s.m.cells[prow][col].IsZero()
    ensures |EliminateThen(s, kind, col, prow, row).s.trace| <= |s.trace| + (s.m.rows - row)
    decreases s.m.rows - row, 0
  {
    var a := EliminateRow(s, kind, col, prow, row);
    if a.flow == Go {
      NextRowsBound(s, a, kind, col, prow, row);
    }
  }

  lemma {:induction false} NextRowsBound(s: KState, a: Run, kind: EchelonKind, col: nat, prow: nat, row: nat)
    requires s.m.Wf() && col < s.m.cols && prow < s.m.rows && row < s.m.rows
    requires Steps(s, a.s) && |a.s.trace| <= |s.trace| + 1 && !a.s.m.cells[prow][col].IsZero()
    ensures |EliminateFrom(a.s, kind, col, prow, row + 1).s.trace| <= |s.trace| + (s.m.rows - row)
    decreases s.m.rows - row, 0, 0
  {
    EliminateBound(a.s, kind, col, prow, row + 1);
  }

  /** One iteration of the elimination loop: add factor * pivot row to `row`, clearing its entry. */
  function EliminateRow(s: KState, kind: EchelonKind, col: nat, prow: nat, row: nat): (r: Run)
    requires s.m.Wf() && Counted(s) && col < s.m.cols && prow < s.m.rows && row < s.m.rows
    requires row != prow && !s.m.cells[prow][col].IsZero()
    ensures Steps(s, r.s) && Replays(s, r)
    ensures r.flow.Fail? ==> r.flow.code == Overflow
    ensures s.obs.None? ==> r.flow != Stop
    ensures |r.s.trace| <= |s.trace| + 1
    ensures forall i :: 0 <= i < s.m.rows && i != row ==> r.s.m.cells[i] == s.m.cells[i]
    ensures r.flow == Go && (kind == Ref || s.m.cells[prow][col] == One) ==>
              r.s.m.cells[row][col].IsZero()
    ensures r.flow == Go ==> ColumnsKept(s.m, r.s.m, prow)
  {
    match Factor(s.m, kind, col, prow, row)
    case Failure(e) =>
      ReplaysFail(s, Run(s, Fail(e)));
      Run(s, Fail(e))
    case Success(f) =>
      var a := AddMulStep(s, row, prow, f);
      ClearsEntry(s, a, kind, col, prow, row, f);
      if a.flow == Go then AddedKeeps(s.m, a.s.m, row, prow, f); a else a
  }

  /**
   * Every column in which the pivot row is zero is the same in m and m'.
   * Reached through a depth the solver does not see through, so that the
   * loop lemmas carry it without instantiating it; ColumnsKeptDef opens it.
   */
  predicate ColumnsKept(m: Matrix, m': Matrix, prow: nat)
    requires m.Wf() && m'.Wf() && SameDim(m, m') && prow < m.rows
  {
    ColumnsKeptAt(m, m', prow, prow + 1)
  }

  predicate ColumnsKeptAt(m: Matrix, m': Matrix, prow: nat, depth: nat)
    requires m.Wf() && m'.Wf() && SameDim(m, m') && prow < m.rows
    decreases depth
  {
    if depth > 0 then ColumnsKeptAt(m, m', prow, depth - 1) else ColumnsKeptBody(m, m', prow)
  }

  predicate ColumnsKeptBody(m: Matrix, m': Matrix, prow: nat)
    requires m.Wf() && m'.Wf() && SameDim(m, m') && prow < m.rows
  {
    forall i, c :: 0 <= i < m.rows && 0 <= c < m.cols && m.cells[prow][c].IsZero() ==> m'.cells[i][c] == m.cells[i][c]
  }

  lemma {:induction false} ColumnsKeptAtDef(m: Matrix, m': Matrix, prow: nat, depth: nat)
    requires m.Wf() && m'.Wf() && SameDim(m, m') && prow < m.rows
    ensures ColumnsKeptAt(m, m', prow, depth) <==> ColumnsKeptBody(m, m', prow)
    decreases depth
  {
    if depth > 0 {
      ColumnsKeptAtDef(m, m', prow, depth - 1);
    }
  }

  lemma ColumnsKeptDef(m: Matrix, m': Matrix, prow: nat)
    requires m.Wf() && m'.Wf() && SameDim(m, m') && prow < m.rows
    ensures ColumnsKept(m, m', prow) <==> ColumnsKeptBody(m, m', prow)
  {
    ColumnsKeptAtDef(m, m', prow, prow + 1);
  }

  /** Adding a multiple of the pivot row changes nothing where the pivot row is zero. */
  lemma AddedKeeps(m: Matrix, m': Matrix, row: nat, prow: nat, f: Rational)
    requires m.Wf() && m'.Wf() && SameDim(m, m') && row < m.rows && prow < m.rows && f.Valid()
    requires AddedRow(m, m', row, prow, f)
    requires forall i :: 0 <= i < m.rows && i != row ==> m'.cells[i] == m.cells[i]
    ensures ColumnsKept(m, m', prow)
  {
    forall i, c | 0 <= i < m.rows && 0 <= c < m.cols && m.cells[prow][c].IsZero()
      ensures m'.cells[i][c] == m.cells[i][c]
    {
      if i == row {
        ZeroOneByValue(m.cells[prow][c]);
        assert m'.V(row, c) == m.V(row, c);
        ValInjective(m'.cells[row][c], m.cells[row][c]);
      }
    }    ColumnsKeptDef(m, m', prow);
  }

  /** apply_addmul(row += f * prow), then report the AddMul op. */
  function AddMulStep(s: KState, row: nat, prow: nat, f: Rational): (r: Run)
    requires s.m.Wf() && Counted(s) && row < s.m.rows && prow < s.m.rows && row != prow && f.Valid()
    ensures Steps(s, r.s) && Replays(s, r)
    ensures r.flow.Fail? ==> r.flow.code == Overflow
    ensures s.obs.None? ==> r.flow != Stop
    ensures |r.s.trace| <= |s.trace| + 1
    ensures forall i :: 0 <= i < s.m.rows && i != row ==> r.s.m.cells[i] == s.m.cells[i]
    ensures !r.flow.Fail? ==> AddedRow(s.m, r.s.m, row, prow, f)
    ensures r.s.trace == s.trace || r.s.trace == s.trace + [RowOp(AddMul, row, prow, f)]
  {
    var w := ApplyAddMul(s.m, row, prow, f);
    if w.ec != Ok then
      ReplaysFail(s, Run(s.(m := w.m), Fail(w.ec)));
      Run(s.(m := w.m), Fail(w.ec))
    else
      var op := RowOp(AddMul, row, prow, f);
      ApplyDef(s.m, op);
      ReplaysRecord(s, op, w.m);
      var r := Record(s, op, w.m);
      assert r.s.m == w.m;
      r
  }

  /** After the add-multiple, the eliminated entry is zero. */
  lemma ClearsEntry(s: KState, a: Run, kind: EchelonKind, col: nat, prow: nat, row: nat, f: Rational)
    requires s.m.Wf() && a.s.m.Wf() && SameDim(s.m, a.s.m)
    requires col < s.m.cols && prow < s.m.rows && row < s.m.rows
    requires !s.m.cells[prow][col].IsZero()
    requires Factor(s.m, kind, col, prow, row) == Success(f)
    requires !a.flow.Fail? ==> AddedRow(s.m, a.s.m, row, prow, f)
    ensures !a.flow.Fail? && (kind == Ref || s.m.cells[prow][col] == One) ==>
              a.s.m.cells[row][col].IsZero()
  {
    if !a.flow.Fail? {
      FactorValue(s.m, kind, col, prow, row);
      var e := s.m.V(row, col);
      var p := s.m.V(prow, col);
      assert a.s.m.V(row, col) == e + p * f.Val();
      if kind == Ref {
        Cancels(e, p, f.Val());
      } else if s.m.cells[prow][col] == One {
        ZeroOneByValue(One);
      }
      ZeroOneByValue(a.s.m.cells[row][col]);
    }
  }

  /**
   * One pivot column: bring the pivot row `best` up to `prow`, normalise it,
   * and clear the column. At most a swap, a scale and one op per other row.
   */
  function PivotColumn(s: KState, kind: EchelonKind, col: nat, prow: nat, best: nat): (r: Run)
    requires s.m.Wf() && Counted(s) && col < s.m.cols && prow <= best < s.m.rows
    requires !s.m.cells[best][col].IsZero()
    ensures Steps(s, r.s) && Replays(s, r)
    ensures r.flow.Fail? ==> r.flow.code == Overflow
    ensures s.obs.None? ==> r.flow != Stop
  {
    var a := SwapStep(s, prow, best);
    if a.flow != Go then a
    else
      var b := NormalizeStep(a.s, kind, col, prow);
      Chain(s, a, b);
      if b.flow != Go then b
      else
        var c := EliminateFrom(b.s, kind, col, prow, 0);
        Chain(a.s, b, c);
        Chain(s, a, c);
        c
  }

  /** One pivot column applies at most a swap, a scale and one op per other row. */
  lemma PivotColumnBound(s: KState, kind: EchelonKind, col: nat, prow: nat, best: nat)
    requires s.m.Wf() && Counted(s) && col < s.m.cols && prow <= best < s.m.rows
    requires !s.m.cells[best][col].IsZero()
    ensures |PivotColumn(s, kind, col, prow, best).s.trace| <= |s.trace| + (s.m.rows + 2)
  {
    var a := SwapStep(s, prow, best);
    if a.flow == Go {
      var b := NormalizeStep(a.s, kind, col, prow);
      if b.flow == Go {
        EliminateBound(b.s, kind, col, prow, 0);
      }
    }
  }

  /** A bound on the ops of one pivot column: rows + 2 for any row count below 256. */
  const COLUMN_OPS := 257

  /** One more column's worth of ops: y after one column, z after k more. */
  lemma MoreColumns(x: nat, y: nat, z: nat, k: nat)
    requires y <= x + COLUMN_OPS && z <= y + k * COLUMN_OPS
    ensures z <= x + (k + 1) * COLUMN_OPS
  {
  }

  /** The column loop of echelon_apply from column `col` with pivot row `prow`. */
  function Columns(s: KState, kind: EchelonKind, col: nat, prow: nat): (r: Run)
    requires s.m.Wf() && Counted(s) && col <= s.m.cols && prow <= s.m.rows
    ensures Steps(s, r.s) && Replays(s, r)
    ensures r.flow.Fail? ==> r.flow.code == Overflow
    ensures s.obs.None? ==> r.flow != Stop
    decreases s.m.cols - col, 1
  {
    if col == s.m.cols || prow == s.m.rows then
      ReplaysNothing(s, Run(s, Go));
      Run(s, Go)
    else
      match FindPivot(s.m, col, prow)
      case None => Columns(s, kind, col + 1, prow)
      case Some(best) => PivotThenColumns(s, kind, col, prow, best)
  }

  /** A pivot found in `col`: process the column, then carry on with the next pivot row. */
  function PivotThenColumns(s: KState, kind: EchelonKind, col: nat, prow: nat, best: nat): (r: Run)
    requires s.m.Wf() && Counted(s) && col < s.m.cols && prow <= best < s.m.rows
    requires !s.m.cells[best][col].IsZero()
    ensures Steps(s, r.s) && Replays(s, r)
    ensures r.flow.Fail? ==> r.flow.code == Overflow
    ensures s.obs.None? ==> r.flow != Stop
    decreases s.m.cols - col, 0
  {
    var a := PivotColumn(s, kind, col, prow, best);
    if a.flow != Go then a
    else
      var r := Columns(a.s, kind, col + 1, prow + 1);
      Chain(s, a, r);
      r
  }

  /** The column loop applies at most COLUMN_OPS ops per remaining column. */
  lemma {:induction false} ColumnsBound(s: KState, kind: EchelonKind, col: nat, prow: nat)
    requires s.m.Wf() && Counted(s) && col <= s.m.cols && prow <= s.m.rows
    ensures |Columns(s, kind, col, prow).s.trace| <= |s.trace| + (s.m.cols - col) * COLUMN_OPS
    decreases s.m.cols - col, 1
  {
    if col == s.m.cols || prow == s.m.rows {
    } else {
      match FindPivot(s.m, col, prow)
      case None => ColumnsBound(s, kind, col + 1, prow);
      case Some(best) => PivotThenColumnsBound(s, kind, col, prow, best);
    }
  }

  lemma {:induction false} PivotThenColumnsBound(s: KState, kind: EchelonKind, col: nat, prow: nat, best: nat)
    requires s.m.Wf() && Counted(s) && col < s.m.cols && prow <= best < s.m.rows
    requires !s.m.cells[best][col].IsZero()
    ensures |PivotThenColumns(s, kind, col, prow, best).s.trace| <= |s.trace| + (s.m.cols - col) * COLUMN_OPS
    decreases s.m.cols - col, 0
  {
    var a := PivotColumn(s, kind, col, prow, best);
    PivotColumnBound(s, kind, col, prow, best);
    if a.flow == Go {
      NextColumnsBound(s, a, kind, col, prow);
    }
  }

  lemma {:induction false} NextColumnsBound(s: KState, a: Run, kind: EchelonKind, col: nat, prow: nat)
    requires s.m.Wf() && col < s.m.cols && prow < s.m.rows
    requires Steps(s, a.s) && |a.s.trace| <= |s.trace| + (s.m.rows + 2)
    ensures |Columns(a.s, kind, col + 1, prow + 1).s.trace| <= |s.trace| + (s.m.cols - col) * COLUMN_OPS
    decreases s.m.cols - col, 0, 0
  {
    ColumnsBound(a.s, kind, col + 1, prow + 1);
    MoreColumns(|s.trace|, |a.s.trace|, |Columns(a.s, kind, col + 1, prow + 1).s.trace|, s.m.cols - col - 1);
  }

  /**
   * echelon_apply(m, kind, obs): the run from column 0, pivot row 0. The
   * observer, when present, is fresh (every caller constructs it just before).
   */
  function EchelonApply(m: Matrix, kind: EchelonKind, obs: Option<Observer>): (r: Run)
    requires m.Wf() && (obs.Some? ==> obs.value.count == 0 && !obs.value.hasLast)
    ensures r.s.m.Wf() && SameDim(r.s.m, m) && Counted(r.s)
    ensures r.s.obs.Some? == obs.Some? && (obs.Some? ==> r.s.obs.value.target == obs.value.target)
    ensures Code(r.flow) == Ok || Code(r.flow) == Overflow
    ensures obs.None? ==> r.flow != Stop
    ensures !r.flow.Fail? ==> AllFit(r.s.trace, m) && Replay(m, r.s.trace) == Written(r.s.m, Ok)
    ensures |r.s.trace| <= m.cols * COLUMN_OPS
    ensures AllInvertible(r.s.trace)
  {
    var s := Start(m, obs);
    var r := Columns(s, kind, 0, 0);
    ColumnsBound(s, kind, 0, 0);
    ReplaysDef(s, r);
    assert Added(s, r.s) == r.s.trace;
    r
  }

  /**
   * The reported steps can be undone: the only matrix of m's shape that
   * replaying them takes to the result is m itself.
   */
  lemma EchelonUndoable(m: Matrix, kind: EchelonKind, obs: Option<Observer>, m2: Matrix)
    requires m.Wf() && (obs.Some? ==> obs.value.count == 0 && !obs.value.hasLast)
    requires m2.Wf() && SameDim(m2, m)
    requires var r := EchelonApply(m, kind, obs);
             !r.flow.Fail? && Replay(m2, r.s.trace) == Written(r.s.m, Ok)
    ensures m2 == m
  {
    var r := EchelonApply(m, kind, obs);
    ReplayInjective(m, m2, r.s.trace);
  }

  // ---------------------------------------------------------------------
  // Observed runs: stopping after T ops cuts the unobserved run after T ops
  // ---------------------------------------------------------------------

  lemma SwapCut(s1: KState, s2: KState, T: nat, prow: nat, best: nat)
    requires Twin(s1, s2, T) && s1.m.Wf() && prow <= best < s1.m.rows
    ensures Cut(SwapStep(s1, prow, best), SwapStep(s2, prow, best), T)
  {
    if best == prow {
      TwinStays(s1, s2, T);
    } else {
      CutRecord(s1, s2, T, RowOp(Swap, prow, best, Zero), ApplySwap(s1.m, prow, best));
    }
  }

  lemma ScaleCut(s1: KState, s2: KState, T: nat, prow: nat, k: Rational)
    requires Twin(s1, s2, T) && s1.m.Wf() && prow < s1.m.rows && k.Valid() && !k.IsZero()
    ensures Cut(ScaleStep(s1, prow, k), ScaleStep(s2, prow, k), T)
  {
    var w := ApplyScale(s1.m, prow, k);
    if w.ec == Ok {
      CutRecord(s1, s2, T, RowOp(Scale, prow, 0, k), w.m);
    } else {
      CutSame(ScaleStep(s1, prow, k), ScaleStep(s2, prow, k), T);
    }
  }

  lemma AddMulCut(s1: KState, s2: KState, T: nat, row: nat, prow: nat, f: Rational)
    requires Twin(s1, s2, T) && s1.m.Wf() && row < s1.m.rows && prow < s1.m.rows && row != prow && f.Valid()
    ensures Cut(AddMulStep(s1, row, prow, f), AddMulStep(s2, row, prow, f), T)
  {
    var w := ApplyAddMul(s1.m, row, prow, f);
    if w.ec == Ok {
      CutRecord(s1, s2, T, RowOp(AddMul, row, prow, f), w.m);
    } else {
      CutSame(AddMulStep(s1, row, prow, f), AddMulStep(s2, row, prow, f), T);
    }
  }

  lemma NormalizeCut(s1: KState, s2: KState, T: nat, kind: EchelonKind, col: nat, prow: nat)
    requires Twin(s1, s2, T) && s1.m.Wf() && col < s1.m.cols && prow < s1.m.rows
    requires !s1.m.cells[prow][col].IsZero()
    ensures Cut(NormalizeStep(s1, kind, col, prow), NormalizeStep(s2, kind, col, prow), T)
  {
    var pivot := s1.m.cells[prow][col];
    if kind == Rref {
      if pivot.IsOne() {
        TwinStays(s1, s2, T);
      } else if Div(FromInt(1), pivot).Success? {
        ZeroOneByValue(Div(FromInt(1), pivot).value);
        ScaleCut(s1, s2, T, prow, Div(FromInt(1), pivot).value);
      } else {
        CutSame(NormalizeStep(s1, kind, col, prow), NormalizeStep(s2, kind, col, prow), T);
      }
    } else {
      if pivot.num >= 0 {
        TwinStays(s1, s2, T);
      } else {
        ScaleCut(s1, s2, T, prow, FromInt(-1));
      }
    }
  }

  lemma EliminateRowCut(s1: KState, s2: KState, T: nat, kind: EchelonKind, col: nat, prow: nat, row: nat)
    requires Twin(s1, s2, T) && s1.m.Wf() && col < s1.m.cols && prow < s1.m.rows && row < s1.m.rows
    requires row != prow && !s1.m.cells[prow][col].IsZero()
    ensures Cut(EliminateRow(s1, kind, col, prow, row), EliminateRow(s2, kind, col, prow, row), T)
  {
    var f := Factor(s1.m, kind, col, prow, row);
    if f.Success? {
      AddMulCut(s1, s2, T, row, prow, f.value);
    } else {
      CutSame(EliminateRow(s1, kind, col, prow, row), EliminateRow(s2, kind, col, prow, row), T);
    }
  }

  lemma {:induction false} EliminateFromCut(s1: KState, s2: KState, T: nat, kind: EchelonKind, col: nat, prow: nat, row: nat)
    requires Twin(s1, s2, T) && s1.m.Wf() && col < s1.m.cols && prow < s1.m.rows && row <= s1.m.rows
    requires !s1.m.cells[prow][col].IsZero()
    ensures Cut(EliminateFrom(s1, kind, col, prow, row), EliminateFrom(s2, kind, col, prow, row), T)
    decreases s1.m.rows - row, 1
  {
    if row == s1.m.rows {
      TwinStays(s1, s2, T);
    } else if row == prow || (kind == Ref && row < prow) || s1.m.cells[row][col].IsZero() {
      EliminateFromCut(s1, s2, T, kind, col, prow, row + 1);
    } else {
      EliminateThenCut(s1, s2, T, kind, col, prow, row);
    }
  }

  lemma {:induction false} EliminateThenCut(s1: KState, s2: KState, T: nat, kind: EchelonKind, col: nat, prow: nat, row: nat)
    requires Twin(s1, s2, T) && s1.m.Wf() && col < s1.m.cols && prow < s1.m.rows && row < s1.m.rows
    requires row != prow && !s1.m.cells[prow][col].IsZero()
    ensures Cut(EliminateThen(s1, kind, col, prow, row), EliminateThen(s2, kind, col, prow, row), T)
    decreases s1.m.rows - row, 0
  {
    var a1 := EliminateRow(s1, kind, col, prow, row);
    var a2 := EliminateRow(s2, kind, col, prow, row);
    EliminateRowCut(s1, s2, T, kind, col, prow, row);
    var b1 := if a1.flow == Go then EliminateFrom(a1.s, kind, col, prow, row + 1) else a1;
    var b2 := if a2.flow == Go then EliminateFrom(a2.s, kind, col, prow, row + 1) else a2;
    if a1.flow == Go && |a2.s.trace| < T {
      NextRowsCut(s1, s2, a1, a2, T, kind, col, prow, row);
    }
    CutThen(T, a1, a2, b1, b2);
  }

  /** The rows after an eliminated row stay related while the observed run carries on. */
  lemma {:induction false} NextRowsCut(s1: KState, s2: KState, a1: Run, a2: Run, T: nat, kind: EchelonKind, col: nat, prow: nat, row: nat)
    requires Twin(s1, s2, T) && s1.m.Wf() && col < s1.m.cols && prow < s1.m.rows && row < s1.m.rows
    requires Steps(s1, a1.s) && Steps(s2, a2.s) && Cut(a1, a2, T)
    requires a1.flow == Go && |a2.s.trace| < T
    requires !a1.s.m.cells[prow][col].IsZero() && !a2.s.m.cells[prow][col].IsZero()
    ensures a2.flow == Go
    ensures Cut(EliminateFrom(a1.s, kind, col, prow, row + 1), EliminateFrom(a2.s, kind, col, prow, row + 1), T)
    decreases s1.m.rows - row, 0, 0
  {
    TwinAfter(s1, s2, T, a1, a2);
    EliminateFromCut(a1.s, a2.s, T, kind, col, prow, row + 1);
  }

  lemma PivotColumnCut(s1: KState, s2: KState, T: nat, kind: EchelonKind, col: nat, prow: nat, best: nat)
    requires Twin(s1, s2, T) && s1.m.Wf() && col < s1.m.cols && prow <= best < s1.m.rows
    requires !s1.m.cells[best][col].IsZero()
    ensures Cut(PivotColumn(s1, kind, col, prow, best), PivotColumn(s2, kind, col, prow, best), T)
  {
    var a1 := SwapStep(s1, prow, best);
    var a2 := SwapStep(s2, prow, best);
    SwapCut(s1, s2, T, prow, best);
    var b1 := NormalizeStep(a1.s, kind, col, prow);
    var b2 := NormalizeStep(a2.s, kind, col, prow);
    var c1 := if b1.flow == Go then EliminateFrom(b1.s, kind, col, prow, 0) else b1;
    var c2 := if b2.flow == Go then EliminateFrom(b2.s, kind, col, prow, 0) else b2;
    if a1.flow == Go && |a2.s.trace| < T {
      TwinAfter(s1, s2, T, a1, a2);
      NormalizeCut(a1.s, a2.s, T, kind, col, prow);
      if b1.flow == Go && |b2.s.trace| < T {
        TwinAfter(a1.s, a2.s, T, b1, b2);
        EliminateFromCut(b1.s, b2.s, T, kind, col, prow, 0);
      }
      CutThen(T, b1, b2, c1, c2);
    }
    CutThen(T, a1, a2, Then(b1, c1), Then(b2, c2));
  }

  lemma {:induction false} ColumnsCut(s1: KState, s2: KState, T: nat, kind: EchelonKind, col: nat, prow: nat)
    requires Twin(s1, s2, T) && s1.m.Wf() && col <= s1.m.cols && prow <= s1.m.rows
    ensures Cut(Columns(s1, kind, col, prow), Columns(s2, kind, col, prow), T)
    decreases s1.m.cols - col, 2
  {
    if col == s1.m.cols || prow == s1.m.rows {
      TwinStays(s1, s2, T);
    } else {
      match FindPivot(s1.m, col, prow)
      case None => ColumnsCut(s1, s2, T, kind, col + 1, prow);
      case Some(best) => PivotThenColumnsCut(s1, s2, T, kind, col, prow, best);
    }
  }

  lemma {:induction false} PivotThenColumnsCut(s1: KState, s2: KState, T: nat, kind: EchelonKind, col: nat, prow: nat, best: nat)
    requires Twin(s1, s2, T) && s1.m.Wf() && col < s1.m.cols && prow <= best < s1.m.rows
    requires !s1.m.cells[best][col].IsZero()
    ensures Cut(PivotThenColumns(s1, kind, col, prow, best), PivotThenColumns(s2, kind, col, prow, best), T)
    decreases s1.m.cols - col, 1
  {
    var a1 := PivotColumn(s1, kind, col, prow, best);
    var a2 := PivotColumn(s2, kind, col, prow, best);
    PivotColumnCut(s1, s2, T, kind, col, prow, best);
    var b1 := if a1.flow == Go then Columns(a1.s, kind, col + 1, prow + 1) else a1;
    var b2 := if a2.flow == Go then Columns(a2.s, kind, col + 1, prow + 1) else a2;
    if a1.flow == Go && |a2.s.trace| < T {
      NextColumnsCut(s1, s2, a1, a2, T, kind, col, prow);
    }
    CutThen(T, a1, a2, b1, b2);
  }

  /** The columns after a pivot column stay related while the observed run carries on. */
  lemma {:induction false} NextColumnsCut(s1: KState, s2: KState, a1: Run, a2: Run, T: nat, kind: EchelonKind, col: nat, prow: nat)
    requires Twin(s1, s2, T) && s1.m.Wf() && col < s1.m.cols && prow < s1.m.rows
    requires Steps(s1, a1.s) && Steps(s2, a2.s) && Cut(a1, a2, T)
    requires a1.flow == Go && |a2.s.trace| < T
    ensures a2.flow == Go
    ensures Cut(Columns(a1.s, kind, col + 1, prow + 1), Columns(a2.s, kind, col + 1, prow + 1), T)
    decreases s1.m.cols - col, 0
  {
    TwinAfter(s1, s2, T, a1, a2);
    var e1 := Columns(a1.s, kind, col + 1, prow + 1);
    var e2 := Columns(a2.s, kind, col + 1, prow + 1);
    ColumnsCut(a1.s, a2.s, T, kind, col + 1, prow + 1);
    assert Cut(e1, e2, T);
  }

  /**
   * An observer that stops after T >= 1 ops cuts echelon_apply short: the
   * observed run is the unobserved run, cut right after its T-th op (and
   * identical to it when that run applies fewer than T ops).
   */
  lemma EchelonCut(m: Matrix, kind: EchelonKind, T: nat)
    requires m.Wf() && T >= 1
    ensures Cut(EchelonApply(m, kind, Some(NewObserver(T))), EchelonApply(m, kind, None), T)
  {
    ColumnsCut(Start(m, Some(NewObserver(T))), Start(m, None), T, kind, 0, 0);
  }

  /** The default target (size_t(-1)) is never reached: counting ops does not change the run. */
  lemma EchelonNoTarget(m: Matrix, kind: EchelonKind)
    requires m.Wf()
    ensures var r1 := EchelonApply(m, kind, Some(NewObserver(NO_TARGET)));
            var r2 := EchelonApply(m, kind, None);
            r1.flow == r2.flow && r1.s.m == r2.s.m && r1.s.trace == r2.s.trace
  {
    EchelonCut(m, kind, NO_TARGET);
    CutDef(EchelonApply(m, kind, Some(NewObserver(NO_TARGET))), EchelonApply(m, kind, None), NO_TARGET);
  }
}
