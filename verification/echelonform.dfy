/**
 * The shape echelon_apply leaves (row_reduction.cpp). A completed RREF run
 * gives reduced row echelon form: every leading entry is 1 and is the only
 * nonzero entry of its column, zero rows come last, and leading entries move
 * right going down. A completed REF run gives the staircase with positive
 * leading entries and zeros below each of them.
 *
 * The proof follows the column loop. After the columns before `col` with
 * `prow` pivots found in them, rows 0 .. prow-1 lead in the strictly
 * increasing pivot columns piv, and the rows from prow on are zero on the
 * processed columns (Progress).
 */
module EchelonForm {

  import opened Errors
  import opened Rationals
  import opened Matrices
  import opened RowOps
  import opened Kernels
  import opened Echelon
  import Spaces

  /** A normalised pivot: exactly 1 for RREF, positive for REF. */
  predicate PivotOk(kind: EchelonKind, x: Rational) {
    if kind == Rref then x == One else x.num > 0
  }

  /**
   * The invariant of the column loop on columns 0 .. col-1 with the pivot
   * rows 0 .. prow-1 in columns piv: each pivot row is zero before its pivot,
   * each pivot is normalised and is the only nonzero entry of its column
   * (REF: the only one from its row down), and the other rows are zero on
   * every processed column. It is reached through a recursion on a depth
   * the solver does not see through, so that the loop lemmas reason from
   * the per-column lemmas alone; ProgressDef opens it.
   */
  predicate Progress(m: Matrix, kind: EchelonKind, col: nat, prow: nat, piv: seq<nat>)
    requires m.Wf()
  {
    ProgressAt(m, kind, col, prow, piv, col + 1)
  }

  predicate ProgressAt(m: Matrix, kind: EchelonKind, col: nat, prow: nat, piv: seq<nat>, depth: nat)
    requires m.Wf()
    decreases depth
  {
    if depth > 0 then ProgressAt(m, kind, col, prow, piv, depth - 1) else ProgressBody(m, kind, col, prow, piv)
  }

  lemma {:induction false} ProgressAtDef(m: Matrix, kind: EchelonKind, col: nat, prow: nat, piv: seq<nat>, depth: nat)
    requires m.Wf()
    ensures ProgressAt(m, kind, col, prow, piv, depth) <==> ProgressBody(m, kind, col, prow, piv)
    decreases depth
  {
    if depth > 0 {
      ProgressAtDef(m, kind, col, prow, piv, depth - 1);
    }
  }

  lemma ProgressDef(m: Matrix, kind: EchelonKind, col: nat, prow: nat, piv: seq<nat>)
    requires m.Wf()
    ensures Progress(m, kind, col, prow, piv) <==> ProgressBody(m, kind, col, prow, piv)
  {
    ProgressAtDef(m, kind, col, prow, piv, col + 1);
  }

  predicate ProgressBody(m: Matrix, kind: EchelonKind, col: nat, prow: nat, piv: seq<nat>)
    requires m.Wf()
  {
    |piv| == prow && prow <= m.rows && col <= m.cols &&
    (forall k :: 0 <= k < prow ==> piv[k] < col) &&
    (forall k1, k2 :: 0 <= k1 < k2 < prow ==> piv[k1] < piv[k2]) &&
    (forall k, c :: 0 <= k < prow && 0 <= c < piv[k] ==> m.cells[k][c].IsZero()) &&
    (forall k :: 0 <= k < prow ==> PivotOk(kind, m.cells[k][piv[k]])) &&
    (forall k, i :: 0 <= k < prow && 0 <= i < m.rows && i != k && (kind == Rref || i > k) ==>
       m.cells[i][piv[k]].IsZero()) &&
    (forall i, c :: prow <= i < m.rows && 0 <= c < col ==> m.cells[i][c].IsZero())
  }

  /**
   * Row echelon form as REF promises it: the staircase, with every leading
   * entry positive and nothing but zeros below it.
   */
  predicate RowEchelon(m: Matrix)
    requires m.Wf()
  {
    Spaces.Staircase(m, m.cols) &&
    forall r, c :: 0 <= r < m.rows && 0 <= c < m.cols && Spaces.IsLead(m.cells[r], m.cols, c) ==>
      m.cells[r][c].num > 0 && forall i :: r < i < m.rows ==> m.cells[i][c].IsZero()
  }

  // ---------------------------------------------------------------------
  // One pivot column keeps the invariant
  // ---------------------------------------------------------------------

  /** The swap exchanges two rows at or below prow, which are alike on the processed columns. */
  lemma SwapProgress(m: Matrix, m1: Matrix, kind: EchelonKind, col: nat, prow: nat, best: nat, piv: seq<nat>)
    requires m.Wf() && m1.Wf() && SameDim(m, m1) && prow <= best < m.rows
    requires Progress(m, kind, col, prow, piv)
    requires m1.cells[prow] == m.cells[best] && m1.cells[best] == m.cells[prow]
    requires forall i :: 0 <= i < m.rows && i != prow && i != best ==> m1.cells[i] == m.cells[i]
    ensures Progress(m1, kind, col, prow, piv)
  {
    ProgressDef(m, kind, col, prow, piv);
    ProgressDef(m1, kind, col, prow, piv);
    forall k, i | 0 <= k < prow && 0 <= i < m.rows && i != k && (kind == Rref || i > k)
      ensures m1.cells[i][piv[k]].IsZero()
    {
      if i == prow {
        assert m1.cells[i][piv[k]] == m.cells[best][piv[k]];
      } else if i == best {
        assert m1.cells[i][piv[k]] == m.cells[prow][piv[k]];
      }
    }
    forall i, c | prow <= i < m.rows && 0 <= c < col
      ensures m1.cells[i][c].IsZero()
    {
      if i == prow {
        assert m1.cells[i][c] == m.cells[best][c];
      } else if i == best {
        assert m1.cells[i][c] == m.cells[prow][c];
      }
    }
  }

  /** Normalising row prow keeps its zeros, and so the invariant. */
  lemma NormalizeProgress(m: Matrix, m1: Matrix, kind: EchelonKind, col: nat, prow: nat, piv: seq<nat>)
    requires m.Wf() && m1.Wf() && SameDim(m, m1) && prow < m.rows
    requires Progress(m, kind, col, prow, piv)
    requires ZerosKept(m, m1, prow)
    ensures Progress(m1, kind, col, prow, piv)
  {
    ProgressDef(m, kind, col, prow, piv);
    ProgressDef(m1, kind, col, prow, piv);
    forall k, i | 0 <= k < prow && 0 <= i < m.rows && i != k && (kind == Rref || i > k)
      ensures m1.cells[i][piv[k]].IsZero()
    {
      assert m.cells[i][piv[k]].IsZero();
    }
    forall i, c | prow <= i < m.rows && 0 <= c < col
      ensures m1.cells[i][c].IsZero()
    {
      assert m.cells[i][c].IsZero();
    }
  }

  /**
   * Clearing column col leaves the processed columns alone (row prow is zero
   * there) and makes col the pivot column of row prow.
   */
  lemma EliminateProgress(m: Matrix, m1: Matrix, kind: EchelonKind, col: nat, prow: nat, piv: seq<nat>)
    requires m.Wf() && m1.Wf() && SameDim(m, m1) && col < m.cols && prow < m.rows
    requires Progress(m, kind, col, prow, piv) && PivotOk(kind, m.cells[prow][col])
    requires m1.cells[prow] == m.cells[prow]
    requires ColumnsKept(m, m1, prow) && Cleared(m1, kind, col, prow, 0)
    ensures Progress(m1, kind, col + 1, prow + 1, piv + [col])
  {
    ProgressDef(m, kind, col, prow, piv);
    EliminateLeads(m, m1, kind, col, prow, piv);
    EliminateZeros(m, m1, kind, col, prow, piv);
    ProgressDef(m1, kind, col + 1, prow + 1, piv + [col]);
  }

  /** The pivot rows, the new one included, still lead with a normalised pivot. */
  lemma EliminateLeads(m: Matrix, m1: Matrix, kind: EchelonKind, col: nat, prow: nat, piv: seq<nat>)
    requires m.Wf() && m1.Wf() && SameDim(m, m1) && col < m.cols && prow < m.rows
    requires ProgressBody(m, kind, col, prow, piv) && PivotOk(kind, m.cells[prow][col])
    requires m1.cells[prow] == m.cells[prow] && ColumnsKept(m, m1, prow)
    ensures var piv' := piv + [col];
            (forall k, c :: 0 <= k < prow + 1 && 0 <= c < piv'[k] ==> m1.cells[k][c].IsZero()) &&
            (forall k :: 0 <= k < prow + 1 ==> PivotOk(kind, m1.cells[k][piv'[k]]))
  {
    var piv' := piv + [col];
    ColumnsKeptDef(m, m1, prow);
    forall k, c | 0 <= k < prow + 1 && 0 <= c < piv'[k]
      ensures m1.cells[k][c].IsZero()
    {
      assert m.cells[prow][c].IsZero();
      if k < prow {
        assert m.cells[k][c].IsZero();
      }
    }
    forall k | 0 <= k < prow
      ensures PivotOk(kind, m1.cells[k][piv'[k]])
    {
      assert m.cells[prow][piv[k]].IsZero();
      assert m1.cells[k][piv[k]] == m.cells[k][piv[k]];
    }
  }

  /** The pivot columns, the new one included, are clear, and so are the rows below prow. */
  lemma EliminateZeros(m: Matrix, m1: Matrix, kind: EchelonKind, col: nat, prow: nat, piv: seq<nat>)
    requires m.Wf() && m1.Wf() && SameDim(m, m1) && col < m.cols && prow < m.rows
    requires ProgressBody(m, kind, col, prow, piv)
    requires ColumnsKept(m, m1, prow) && Cleared(m1, kind, col, prow, 0)
    ensures var piv' := piv + [col];
            (forall k, i :: 0 <= k < prow + 1 && 0 <= i < m.rows && i != k && (kind == Rref || i > k) ==>
               m1.cells[i][piv'[k]].IsZero()) &&
            (forall i, c :: prow + 1 <= i < m.rows && 0 <= c < col + 1 ==> m1.cells[i][c].IsZero())
  {
    var piv' := piv + [col];
    ColumnsKeptDef(m, m1, prow);
    forall k, i | 0 <= k < prow && 0 <= i < m.rows && i != k && (kind == Rref || i > k)
      ensures m1.cells[i][piv'[k]].IsZero()
    {
      assert m.cells[prow][piv[k]].IsZero();
      assert m1.cells[i][piv[k]] == m.cells[i][piv[k]];
    }
    forall i, c | prow + 1 <= i < m.rows && 0 <= c < col
      ensures m1.cells[i][c].IsZero()
    {
      assert m.cells[prow][c].IsZero();
      assert m1.cells[i][c] == m.cells[i][c];
    }
  }

  /** One pivot column, carried to its end, extends the invariant by one pivot. */
  lemma PivotColumnProgress(s: KState, kind: EchelonKind, col: nat, prow: nat, best: nat, piv: seq<nat>)
    requires s.m.Wf() && Counted(s) && col < s.m.cols && prow <= best < s.m.rows
    requires !s.m.cells[best][col].IsZero() && Progress(s.m, kind, col, prow, piv)
    ensures var r := PivotColumn(s, kind, col, prow, best);
            r.flow == Go ==> Progress(r.s.m, kind, col + 1, prow + 1, piv + [col])
  {
    var a := SwapStep(s, prow, best);
    if a.flow == Go {
      SwapProgress(s.m, a.s.m, kind, col, prow, best, piv);
      var b := NormalizeStep(a.s, kind, col, prow);
      if b.flow == Go {
        NormalizeProgress(a.s.m, b.s.m, kind, col, prow, piv);
        var c := EliminateFrom(b.s, kind, col, prow, 0);
        if c.flow == Go {
          EliminateKeepsColumns(b.s, kind, col, prow, 0);
          EliminateClears(b.s, kind, col, prow, 0);
          EliminateProgress(b.s.m, c.s.m, kind, col, prow, piv);
        }
      }
    }
  }

  // ---------------------------------------------------------------------
  // The column loop
  // ---------------------------------------------------------------------

  /** A column with no pivot at or below prow is zero there: the invariant extends over it. */
  lemma SkipProgress(m: Matrix, kind: EchelonKind, col: nat, prow: nat, piv: seq<nat>)
    requires m.Wf() && col < m.cols && Progress(m, kind, col, prow, piv)
    requires forall i :: prow <= i < m.rows ==> m.cells[i][col].IsZero()
    ensures Progress(m, kind, col + 1, prow, piv)
  {
    ProgressDef(m, kind, col, prow, piv);
    ProgressDef(m, kind, col + 1, prow, piv);
  }

  /** With every row a pivot row, the remaining columns change nothing. */
  lemma FullProgress(m: Matrix, kind: EchelonKind, col: nat, piv: seq<nat>)
    requires m.Wf() && Progress(m, kind, col, m.rows, piv)
    ensures Progress(m, kind, m.cols, m.rows, piv)
  {
    ProgressDef(m, kind, col, m.rows, piv);
    ProgressDef(m, kind, m.cols, m.rows, piv);
  }

  /** A completed column loop leaves the invariant over all columns, for some pivot columns. */
  lemma {:induction false} ColumnsProgress(s: KState, kind: EchelonKind, col: nat, prow: nat, piv: seq<nat>)
      returns (piv': seq<nat>)
    requires s.m.Wf() && Counted(s) && col <= s.m.cols && prow <= s.m.rows
    requires Progress(s.m, kind, col, prow, piv)
    ensures var r := Columns(s, kind, col, prow);
            r.flow == Go ==> Progress(r.s.m, kind, r.s.m.cols, |piv'|, piv')
    decreases s.m.cols - col, 1
  {
    ProgressDef(s.m, kind, col, prow, piv);
    if col == s.m.cols {
      piv' := piv;
    } else if prow == s.m.rows {
      FullProgress(s.m, kind, col, piv);
      piv' := piv;
    } else {
      match FindPivot(s.m, col, prow)
      case None =>
        SkipProgress(s.m, kind, col, prow, piv);
        piv' := ColumnsProgress(s, kind, col + 1, prow, piv);
      case Some(best) =>
        piv' := PivotThenProgress(s, kind, col, prow, best, piv);
    }
  }

  lemma {:induction false} PivotThenProgress(s: KState, kind: EchelonKind, col: nat, prow: nat, best: nat, piv: seq<nat>)
      returns (piv': seq<nat>)
    requires s.m.Wf() && Counted(s) && col < s.m.cols && prow <= best < s.m.rows
    requires !s.m.cells[best][col].IsZero() && Progress(s.m, kind, col, prow, piv)
    ensures var r := PivotThenColumns(s, kind, col, prow, best);
            r.flow == Go ==> Progress(r.s.m, kind, r.s.m.cols, |piv'|, piv')
    decreases s.m.cols - col, 0
  {
    var a := PivotColumn(s, kind, col, prow, best);
    piv' := NextColumnsProgress(s, a, kind, col, prow, best, piv);
  }

  lemma {:induction false} NextColumnsProgress(s: KState, a: Run, kind: EchelonKind, col: nat, prow: nat, best: nat, piv: seq<nat>)
      returns (piv': seq<nat>)
    requires s.m.Wf() && Counted(s) && col < s.m.cols && prow <= best < s.m.rows
    requires !s.m.cells[best][col].IsZero() && Progress(s.m, kind, col, prow, piv)
    requires a == PivotColumn(s, kind, col, prow, best)
    ensures var r := Columns(a.s, kind, col + 1, prow + 1);
            a.flow == Go && r.flow == Go ==> Progress(r.s.m, kind, r.s.m.cols, |piv'|, piv')
    decreases s.m.cols - col, 0, 0
  {
    PivotColumnProgress(s, kind, col, prow, best, piv);
    if a.flow == Go {
      piv' := ColumnsProgress(a.s, kind, col + 1, prow + 1, piv + [col]);
    } else {
      piv' := piv;
    }
  }

  // ---------------------------------------------------------------------
  // The invariant over all columns is echelon form
  // ---------------------------------------------------------------------

  /** Row k of a finished run leads in its pivot column; the other rows are zero. */
  lemma LeadsAt(m: Matrix, kind: EchelonKind, piv: seq<nat>, r: nat, c: nat)
    requires m.Wf() && Progress(m, kind, m.cols, |piv|, piv)
    requires r < m.rows && c < m.cols && Spaces.IsLead(m.cells[r], m.cols, c)
    ensures r < |piv| && c == piv[r]
  {
    ProgressDef(m, kind, m.cols, |piv|, piv);
    assert r < |piv|;
    var x := m.cells[r][piv[r]];
    assert PivotOk(kind, x);
    assert !x.IsZero();
    assert Spaces.IsLead(m.cells[r], m.cols, piv[r]);
    Spaces.LeadUnique(m.cells[r], m.cols, c, piv[r]);
  }

  /** Only rows past the pivot rows are zero. */
  lemma ZeroRowsAfter(m: Matrix, kind: EchelonKind, piv: seq<nat>, r: nat)
    requires m.Wf() && Progress(m, kind, m.cols, |piv|, piv)
    requires r < m.rows && Spaces.ZeroOn(m.cells[r], m.cols)
    ensures r >= |piv|
  {
    ProgressDef(m, kind, m.cols, |piv|, piv);
  }

  lemma StaircaseOf(m: Matrix, kind: EchelonKind, piv: seq<nat>)
    requires m.Wf() && Progress(m, kind, m.cols, |piv|, piv)
    ensures Spaces.Staircase(m, m.cols)
  {
    ProgressDef(m, kind, m.cols, |piv|, piv);
    forall r1, r2 | 0 <= r1 < r2 < m.rows && Spaces.ZeroOn(m.cells[r1], m.cols)
      ensures Spaces.ZeroOn(m.cells[r2], m.cols)
    {
      ZeroRowsAfter(m, kind, piv, r1);
    }
    forall r1, r2, c1, c2 | 0 <= r1 < r2 < m.rows && 0 <= c1 < m.cols && 0 <= c2 < m.cols &&
        Spaces.IsLead(m.cells[r1], m.cols, c1) && Spaces.IsLead(m.cells[r2], m.cols, c2)
      ensures c1 < c2
    {
      LeadsAt(m, kind, piv, r1, c1);
      LeadsAt(m, kind, piv, r2, c2);
    }
  }

  /** For RREF the invariant over all columns is reduced row echelon form. */
  lemma ReducedOf(m: Matrix, piv: seq<nat>)
    requires m.Wf() && Progress(m, Rref, m.cols, |piv|, piv)
    ensures Spaces.Reduced(m, m.cols)
  {
    StaircaseOf(m, Rref, piv);
    forall r, c | 0 <= r < m.rows && 0 <= c < m.cols && Spaces.IsLead(m.cells[r], m.cols, c)
      ensures m.cells[r][c].IsOne() && forall i :: 0 <= i < m.rows && i != r ==> m.cells[i][c].IsZero()
    {
      LeadsAt(m, Rref, piv, r, c);
      ProgressDef(m, Rref, m.cols, |piv|, piv);
      assert PivotOk(Rref, m.cells[r][piv[r]]);
    }
  }

  /** For REF it is the staircase with positive leads and zeros below them. */
  lemma RowEchelonOf(m: Matrix, piv: seq<nat>)
    requires m.Wf() && Progress(m, Ref, m.cols, |piv|, piv)
    ensures RowEchelon(m)
  {
    StaircaseOf(m, Ref, piv);
    forall r, c | 0 <= r < m.rows && 0 <= c < m.cols && Spaces.IsLead(m.cells[r], m.cols, c)
      ensures m.cells[r][c].num > 0 && forall i :: r < i < m.rows ==> m.cells[i][c].IsZero()
    {
      LeadsAt(m, Ref, piv, r, c);
      ProgressDef(m, Ref, m.cols, |piv|, piv);
      assert PivotOk(Ref, m.cells[r][piv[r]]);
    }
  }

  // ---------------------------------------------------------------------
  // echelon_apply
  // ---------------------------------------------------------------------

  /**
   * A completed RREF run of echelon_apply leaves reduced row echelon form.
   * Without an observer the run completes unless an operation overflows.
   */
  lemma RrefReduced(m: Matrix, obs: Option<Observer>)
    requires m.Wf() && (obs.Some? ==> obs.value.count == 0 && !obs.value.hasLast)
    ensures var r := EchelonApply(m, Rref, obs);
            r.flow == Go ==> Spaces.Reduced(r.s.m, m.cols)
  {
    var s := Start(m, obs);
    ProgressDef(m, Rref, 0, 0, []);
    var piv := ColumnsProgress(s, Rref, 0, 0, []);
    var r := Columns(s, Rref, 0, 0);
    assert r == EchelonApply(m, Rref, obs);
    if r.flow == Go {
      ReducedOf(r.s.m, piv);
    }
  }

  /** A completed REF run of echelon_apply leaves row echelon form with positive leading entries. */
  lemma RefEchelon(m: Matrix, obs: Option<Observer>)
    requires m.Wf() && (obs.Some? ==> obs.value.count == 0 && !obs.value.hasLast)
    ensures var r := EchelonApply(m, Ref, obs);
            r.flow == Go ==> RowEchelon(r.s.m)
  {
    var s := Start(m, obs);
    ProgressDef(m, Ref, 0, 0, []);
    var piv := ColumnsProgress(s, Ref, 0, 0, []);
    var r := Columns(s, Ref, 0, 0);
    assert r == EchelonApply(m, Ref, obs);
    if r.flow == Go {
      RowEchelonOf(r.s.m, piv);
    }
  }

  // ---------------------------------------------------------------------
  // RREF of a reduced matrix
  // ---------------------------------------------------------------------

  /**
   * In a reduced matrix whose rows from prow on are zero before col, the
   * first of them nonzero in col is row prow itself, its entry there is 1
   * and every other row is zero in col.
   */
  lemma ReducedPivotAt(m: Matrix, col: nat, prow: nat, best: nat)
    requires m.Wf() && Spaces.Reduced(m, m.cols) && col < m.cols && prow <= best < m.rows
    requires forall i :: prow <= i < m.rows ==> Spaces.ZeroOn(m.cells[i], col)
    requires !m.cells[best][col].IsZero()
    ensures best == prow && m.cells[prow][col].IsOne()
    ensures forall i :: 0 <= i < m.rows && i != prow ==> m.cells[i][col].IsZero()
  {
    assert Spaces.ZeroOn(m.cells[best], col);
    assert Spaces.IsLead(m.cells[best], m.cols, col);
    if best != prow && !Spaces.ZeroOn(m.cells[prow], m.cols) {
      var c := Spaces.LeadExists(m.cells[prow], m.cols);
    }
  }

  /** The elimination loop records nothing when every row but the pivot row is already zero in the column. */
  lemma {:induction false} EliminateIdle(s: KState, col: nat, prow: nat, row: nat)
    requires s.m.Wf() && Counted(s) && col < s.m.cols && prow < s.m.rows && row <= s.m.rows
    requires !s.m.cells[prow][col].IsZero()
    requires forall i :: row <= i < s.m.rows && i != prow ==> s.m.cells[i][col].IsZero()
    ensures EliminateFrom(s, Rref, col, prow, row) == Run(s, Go)
    decreases s.m.rows - row
  {
    if row < s.m.rows {
      EliminateIdle(s, col, prow, row + 1);
    }
  }

  /** Rows zero before col and in col are zero before col + 1. */
  lemma ZeroOnNext(m: Matrix, col: nat, from: nat)
    requires m.Wf() && col < m.cols
    requires forall i :: from <= i < m.rows ==> Spaces.ZeroOn(m.cells[i], col)
    requires forall i :: from <= i < m.rows ==> m.cells[i][col].IsZero()
    ensures forall i :: from <= i < m.rows ==> Spaces.ZeroOn(m.cells[i], col + 1)
  {
    forall i | from <= i < m.rows
      ensures Spaces.ZeroOn(m.cells[i], col + 1)
    {
      assert Spaces.ZeroOn(m.cells[i], col);
    }
  }

  /** On a reduced matrix the pivot column already holds its leading 1 alone: nothing is recorded. */
  lemma PivotColumnIdle(s: KState, col: nat, prow: nat, best: nat)
    requires s.m.Wf() && Counted(s) && col < s.m.cols && prow <= best < s.m.rows && Spaces.Reduced(s.m, s.m.cols)
    requires forall i :: prow <= i < s.m.rows ==> Spaces.ZeroOn(s.m.cells[i], col)
    requires FindPivot(s.m, col, prow) == Some(best)
    ensures best == prow
    ensures forall i :: prow + 1 <= i < s.m.rows ==> Spaces.ZeroOn(s.m.cells[i], col + 1)
    ensures PivotColumn(s, Rref, col, prow, best) == Run(s, Go)
  {
    ReducedPivotAt(s.m, col, prow, best);
    EliminateIdle(s, col, prow, 0);
    ZeroOnNext(s.m, col, prow + 1);
  }

  /**
   * The column loop records nothing on a reduced matrix whose rows from prow
   * on are zero before col: each column either holds the next leading 1,
   * already alone in its column, or is zero from prow down.
   */
  lemma {:induction false} ColumnsIdle(s: KState, col: nat, prow: nat)
    requires s.m.Wf() && Counted(s) && col <= s.m.cols && prow <= s.m.rows && Spaces.Reduced(s.m, s.m.cols)
    requires forall i :: prow <= i < s.m.rows ==> Spaces.ZeroOn(s.m.cells[i], col)
    ensures Columns(s, Rref, col, prow) == Run(s, Go)
    decreases s.m.cols - col
  {
    if col < s.m.cols && prow < s.m.rows {
      match FindPivot(s.m, col, prow)
      case None =>
        ZeroOnNext(s.m, col, prow);
        ColumnsIdle(s, col + 1, prow);
      case Some(best) =>
        PivotColumnIdle(s, col, prow, best);
        ColumnsIdle(s, col + 1, prow + 1);
    }
  }

  /**
   * RREF is idempotent: on a matrix already in reduced row echelon form,
   * echelon_apply changes nothing and reports no step.
   */
  lemma RrefIdempotent(m: Matrix, obs: Option<Observer>)
    requires m.Wf() && Spaces.Reduced(m, m.cols) && (obs.Some? ==> obs.value.count == 0 && !obs.value.hasLast)
    ensures EchelonApply(m, Rref, obs) == Run(Start(m, obs), Go)
  {
    ColumnsIdle(Start(m, obs), 0, 0);
  }

  /** Running RREF twice gives what running it once gave. */
  lemma RrefTwice(m: Matrix)
    requires m.Wf()
    ensures var r := EchelonApply(m, Rref, None);
            r.flow == Go ==> EchelonApply(r.s.m, Rref, None) == Run(Start(r.s.m, None), Go)
  {
    RrefReduced(m, None);
    var r := EchelonApply(m, Rref, None);
    if r.flow == Go {
      RrefIdempotent(r.s.m, None);
    }
  }
}
