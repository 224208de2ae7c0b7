/**
 * The worked 2 x 2 cases of the determinant and RREF tests
 * (core/tests/test_det.cpp, core/tests/test_rref.cpp), followed through the
 * model one kernel step at a time. Every entry is pinned down by its value
 * and then by canonicity (ValInjective): two valid rationals with the same
 * value are the same pair.
 */
module Worked {

  import opened Errors
  import opened Int64
  import opened Rationals
  import opened Matrices
  import opened RowOps
  import opened Kernels
  import Det
  import Echelon
  import DetOps
  import EchelonOps
  import NumberTheory
  import Explaining
  import opened Arenas

  /** The 2 x 2 integer matrix [[a, b], [c, d]]. */
  function M2(a: int, b: int, c: int, d: int): (m: Matrix)
    requires InRange(a) && InRange(b) && InRange(c) && InRange(d)
    ensures m.Wf() && m.rows == 2 && m.cols == 2
    ensures m.V(0, 0) == a as real && m.V(0, 1) == b as real && m.V(1, 0) == c as real && m.V(1, 1) == d as real
  {
    IntegerCanonical(a);
    IntegerCanonical(b);
    IntegerCanonical(c);
    IntegerCanonical(d);
    Matrix(2, 2, [[Rational(a, 1), Rational(b, 1)], [Rational(c, 1), Rational(d, 1)]])
  }

  /** A valid rational whose value is the integer v is v / 1. */
  lemma IntCell(x: Rational, v: int)
    requires x.Valid() && InRange(v) && x.Val() == v as real
    ensures x == Rational(v, 1)
  {
    IntegerCanonical(v);
    ValInjective(x, Rational(v, 1));
  }

  /** A 2 x 2 matrix with the values of M2(a, b, c, d) is M2(a, b, c, d). */
  lemma IsM2(m: Matrix, a: int, b: int, c: int, d: int)
    requires InRange(a) && InRange(b) && InRange(c) && InRange(d)
    requires m.Wf() && m.rows == 2 && m.cols == 2
    requires m.V(0, 0) == a as real && m.V(0, 1) == b as real && m.V(1, 0) == c as real && m.V(1, 1) == d as real
    ensures m == M2(a, b, c, d)
  {
    var n := M2(a, b, c, d);
    forall i, j | 0 <= i < 2 && 0 <= j < 2
      ensures m.V(i, j) == n.V(i, j)
    {
    }
    SameValues(m, n);
  }

  /** Small integers, whose sums and products of two stay far inside int64. */
  predicate Small(x: int) { -1000 <= x <= 1000 }

  // ---------------------------------------------------------------------
  // det_elim on [[1, 2], [c, d]]
  // ---------------------------------------------------------------------

  /** det_elim's factor below the pivot 1 is -c. */
  lemma DetFactorBelowUnit(c: int, d: int)
    requires Small(c) && Small(d)
    ensures Det.DetFactor(M2(1, 2, c, d), 0, 1) == Success(FromInt(-c))
  {
    var m := M2(1, 2, c, d);
    assert DivFits(m.cells[1][0], m.cells[0][0]);
    var q := Div(m.cells[1][0], m.cells[0][0]).value;
    IntCell(q, c);
    var f := Neg(q).value;
    IntCell(f, -c);
  }

  /** Both entries of the add-multiple below the pivot fit in int64. */
  lemma ClearBelowEntries(c: int, d: int)
    requires Small(c) && Small(d)
    ensures var m := M2(1, 2, c, d);
            AddMulEntry(m, 1, 0, FromInt(-c), 0).Success? && AddMulEntry(m, 1, 0, FromInt(-c), 1).Success?
  {
    var m := M2(1, 2, c, d);
    var k := FromInt(-c);
    var scaled0 := Mul(m.cells[0][0], k);
    var scaled1 := Mul(m.cells[0][1], k);
    IntegerMul(1, -c);
    IntegerMul(2, -c);
    assert scaled0 == Success(FromInt(-c)) && scaled1 == Success(FromInt(-2 * c));
    IntegerAdd(c, -c);
    IntegerAdd(d, -2 * c);
  }

  /** Adding -c times row 0 of [[1, 2], [c, d]] to row 1 gives [[1, 2], [0, d - 2c]]. */
  lemma ClearBelowUnit(c: int, d: int)
    requires Small(c) && Small(d)
    ensures ApplyAddMul(M2(1, 2, c, d), 1, 0, FromInt(-c)) == Written(M2(1, 2, 0, d - 2 * c), Ok)
  {
    var m := M2(1, 2, c, d);
    var k := FromInt(-c);
    ClearBelowEntries(c, d);
    var w := ApplyAddMul(m, 1, 0, k);
    assert w.m.cells[0] == m.cells[0];
    assert w.m.V(1, 0) == m.V(1, 0) + m.V(0, 0) * k.Val();
    assert w.m.V(1, 1) == m.V(1, 1) + m.V(0, 1) * k.Val();
    IsM2(w.m, 1, 2, 0, d - 2 * c);
  }

  /** The state after the first column of [[1, 2], [c, d]]: one op, and the entry below the pivot cleared. */
  function AfterFirst(c: int, d: int): (s: KState)
    requires Small(c) && Small(d)
    ensures s.m.Wf() && Counted(s)
  {
    KState(M2(1, 2, 0, d - 2 * c), None, [RowOp(AddMul, 1, 0, FromInt(-c))])
  }

  /** The add-multiple that clears the entry below the pivot is recorded and the run goes on. */
  lemma ClearStep(c: int, d: int)
    requires Small(c) && Small(d)
    ensures Echelon.AddMulStep(Start(M2(1, 2, c, d), None), 1, 0, FromInt(-c)) == Run(AfterFirst(c, d), Go)
  {
    ClearBelowUnit(c, d);
  }

  /** The elimination below the first pivot: that one add-multiple. */
  lemma DetEliminateFirst(c: int, d: int)
    requires Small(c) && Small(d) && c != 0
    ensures Det.DetEliminateFrom(Start(M2(1, 2, c, d), None), 0, 1) == Run(AfterFirst(c, d), Go)
  {
    var s0 := Start(M2(1, 2, c, d), None);
    assert !s0.m.cells[1][0].IsZero();
    DetFactorBelowUnit(c, d);
    ClearStep(c, d);
    assert Det.DetEliminateFrom(AfterFirst(c, d), 0, 2) == Run(AfterFirst(c, d), Go);
    assert Det.DetEliminateThen(s0, 0, 1) == Run(AfterFirst(c, d), Go);
  }

  /** The first column of det_elim on [[1, 2], [c, d]]: no swap, one add-multiple. */
  lemma DetFirstColumn(c: int, d: int)
    requires Small(c) && Small(d) && c != 0
    ensures Det.DetColumn(Start(M2(1, 2, c, d), None), 0, 0) == Run(AfterFirst(c, d), Go)
  {
    DetEliminateFirst(c, d);
  }

  /** The second column: the pivot d - 2c is on the diagonal, or there is none and the run stops singular. */
  lemma DetSecondColumn(c: int, d: int)
    requires Small(c) && Small(d)
    ensures Det.DetColumns(AfterFirst(c, d), 1) == Run(AfterFirst(c, d), if d - 2 * c != 0 then Go else Fail(Singular))
  {
    var s1 := AfterFirst(c, d);
    if d - 2 * c != 0 {
      assert FindPivot(s1.m, 1, 1) == Some(1);
      assert Det.DetEliminateFrom(s1, 1, 2) == Run(s1, Go);
      assert Det.DetColumn(s1, 1, 1) == Run(s1, Go);
      assert Det.DetColumns(s1, 2) == Run(s1, Go);
    } else {
      assert FindPivot(s1.m, 1, 1) == None;
    }
  }

  /** The elimination run of det_elim on [[1, 2], [c, d]]. */
  lemma DetRunFamily(c: int, d: int)
    requires Small(c) && Small(d) && c != 0
    ensures Det.DetRun(M2(1, 2, c, d), None) == Run(AfterFirst(c, d), if d - 2 * c != 0 then Go else Fail(Singular))
  {
    var s0 := Start(M2(1, 2, c, d), None);
    assert FindPivot(s0.m, 0, 0) == Some(0);
    DetFirstColumn(c, d);
    DetSecondColumn(c, d);
    assert Det.DetColumns(s0, 0) == Det.DetColumns(AfterFirst(c, d), 1);
  }

  /** The diagonal product of [[1, 2], [0, e]] starting from 1 is e. */
  lemma DiagOfCleared(e: int)
    requires InRange(e)
    ensures Det.DiagProduct(M2(1, 2, 0, e), FromInt(1), 0) == Success(FromInt(e))
  {
    IntegerMul(1, 1);
    IntegerMul(1, e);
    var m := M2(1, 2, 0, e);
    assert Det.DiagProduct(m, FromInt(e), 2) == Success(FromInt(e));
    assert Det.DiagProduct(m, FromInt(1), 1) == Success(FromInt(e));
  }

  /** What det_elim reports once the run on [[1, 2], [c, d]] has ended. */
  lemma ReportFamily(c: int, d: int)
    requires Small(c) && Small(d)
    ensures var s1 := AfterFirst(c, d);
            var r := Det.Report(if d - 2 * c != 0 then Go else Fail(Singular), s1.m, s1.trace, NO_TARGET);
            r.ec == Ok && r.det == Some(FromInt(d - 2 * c))
  {
    var s1 := AfterFirst(c, d);
    if d - 2 * c != 0 {
      assert Det.Sign(s1.trace) == 1;
      DiagOfCleared(d - 2 * c);
      assert Det.SignedReport(s1.m, s1.trace).det == Some(FromInt(d - 2 * c));
    } else {
      CoprimeOneZero();
    }
  }

  /**
   * det_elim on [[1, 2], [c, d]] with c nonzero gives d - 2c: the product of
   * the diagonal after one add-multiple and no swap, or 0 when the second
   * column has no pivot.
   */
  lemma DetElimFamily(c: int, d: int)
    requires Small(c) && Small(d) && c != 0
    ensures Det.DetElim(M2(1, 2, c, d), NO_TARGET).ec == Ok
    ensures Det.DetElim(M2(1, 2, c, d), NO_TARGET).det == Some(FromInt(d - 2 * c))
  {
    Det.DetElimUnobserved(M2(1, 2, c, d));
    DetRunFamily(c, d);
    ReportFamily(c, d);
  }

  /**
   * The determinant tests: op_det gives -2 for [[1, 2], [3, 4]] and 0 for
   * [[1, 2], [2, 4]] (core/tests/test_det.cpp), given a scratch arena that
   * holds the clone.
   */
  lemma OpDetExamples(scratch: Arena, opts: Explaining.Options)
    requires scratch.Valid() && Explaining.OptionsValid(opts)
    ensures Clone(EnterScratch(scratch), M2(1, 2, 3, 4)).Success? ==>
              DetOps.OpDet(M2(1, 2, 3, 4), scratch, opts).value == Some(FromInt(-2))
    ensures Clone(EnterScratch(scratch), M2(1, 2, 2, 4)).Success? ==>
              DetOps.OpDet(M2(1, 2, 2, 4), scratch, opts).value == Some(Zero)
  {
    DetElimFamily(3, 4);
    DetElimFamily(2, 4);
    if Clone(EnterScratch(scratch), M2(1, 2, 3, 4)).Success? {
      DetOps.OpDetElim(M2(1, 2, 3, 4), scratch, opts);
    }
    if Clone(EnterScratch(scratch), M2(1, 2, 2, 4)).Success? {
      DetOps.OpDetElim(M2(1, 2, 2, 4), scratch, opts);
    }
  }

  // ---------------------------------------------------------------------
  // RREF of [[1, 2], [3, 4]]
  // ---------------------------------------------------------------------

  /** -1/2, the reciprocal of the second pivot. */
  function NegHalf(): (q: Rational)
    ensures q.Valid() && q.Val() == -0.5
  {
    NumberTheory.CoprimeDef(1, 2);
    QDef(-1, 2);
    Rational(-1, 2)
  }

  /** The first column of the RREF run: the pivot is already 1, and row 1 is cleared as in det_elim. */
  lemma RrefFirstColumn()
    ensures Echelon.PivotColumn(Start(M2(1, 2, 3, 4), None), Echelon.Rref, 0, 0, 0) == Run(AfterFirst(3, 4), Go)
  {
    var s0 := Start(M2(1, 2, 3, 4), None);
    IntegerCanonical(3);
    var q := Neg(FromInt(3)).value;
    IntCell(q, -3);
    assert Echelon.Factor(s0.m, Echelon.Rref, 0, 0, 1) == Success(FromInt(-3));
    ClearStep(3, 4);
    assert Echelon.EliminateRow(s0, Echelon.Rref, 0, 0, 1) == Run(AfterFirst(3, 4), Go);
    assert Echelon.EliminateFrom(AfterFirst(3, 4), Echelon.Rref, 0, 0, 2) == Run(AfterFirst(3, 4), Go);
    assert Echelon.EliminateFrom(s0, Echelon.Rref, 0, 0, 0) == Run(AfterFirst(3, 4), Go);
  }

  /** The state after the pivot of the second column is scaled to 1. */
  function AfterScale(): (s: KState)
    ensures s.m.Wf() && Counted(s)
  {
    KState(M2(1, 2, 0, 1), None, AfterFirst(3, 4).trace + [RowOp(Scale, 1, 0, NegHalf())])
  }

  /** The state after the entry above the second pivot is cleared: the identity. */
  function AfterAbove(): (s: KState)
    ensures s.m.Wf() && Counted(s)
  {
    KState(M2(1, 0, 0, 1), None, AfterScale().trace + [RowOp(AddMul, 0, 1, FromInt(-2))])
  }

  /** Scaling row 1 of [[1, 2], [0, -2]] by -1/2 gives [[1, 2], [0, 1]]. */
  lemma ScaleSecondRow()
    ensures ApplyScale(M2(1, 2, 0, -2), 1, NegHalf()) == Written(M2(1, 2, 0, 1), Ok)
  {
    var m := M2(1, 2, 0, -2);
    var k := NegHalf();
    IntegerCanonical(0);
    IntegerCanonical(-2);
    assert MulFits(m.cells[1][0], k) && MulFits(m.cells[1][1], k);
    var w := ApplyScale(m, 1, k);
    assert w.m.cells[0] == m.cells[0];
    assert w.m.V(1, 0) == m.V(1, 0) * k.Val();
    assert w.m.V(1, 1) == m.V(1, 1) * k.Val();
    IsM2(w.m, 1, 2, 0, 1);
  }

  /** Normalising the second pivot -2: RREF scales its row by from_int(1) / -2 = -1/2. */
  lemma RrefNormalizeSecond()
    ensures Echelon.NormalizeStep(AfterFirst(3, 4), Echelon.Rref, 1, 1) == Run(AfterScale(), Go)
  {
    var s1 := AfterFirst(3, 4);
    var pivot := s1.m.cells[1][1];
    IntegerCanonical(-2);
    IntegerCanonical(1);
    assert DivFits(FromInt(1), pivot);
    var inv := Div(FromInt(1), pivot).value;
    ValInjective(inv, NegHalf());
    ScaleSecondRow();
    assert Echelon.ScaleStep(s1, 1, NegHalf()) == Run(AfterScale(), Go);
  }

  /** Adding -2 times row 1 of [[1, 2], [0, 1]] to row 0 gives the identity. */
  lemma ClearAboveUnit()
    ensures ApplyAddMul(M2(1, 2, 0, 1), 0, 1, FromInt(-2)) == Written(M2(1, 0, 0, 1), Ok)
  {
    var m := M2(1, 2, 0, 1);
    var k := FromInt(-2);
    IntegerMul(0, -2);
    IntegerAdd(1, 0);
    IntegerMul(1, -2);
    IntegerAdd(2, -2);
    assert AddMulEntry(m, 0, 1, k, 0).Success? && AddMulEntry(m, 0, 1, k, 1).Success?;
    var w := ApplyAddMul(m, 0, 1, k);
    assert w.m.cells[1] == m.cells[1];
    assert w.m.V(0, 0) == m.V(0, 0) + m.V(1, 0) * k.Val();
    assert w.m.V(0, 1) == m.V(0, 1) + m.V(1, 1) * k.Val();
    IsM2(w.m, 1, 0, 0, 1);
  }

  /** The elimination of the second column: row 0 is cleared, row 1 is the pivot row. */
  lemma RrefEliminateSecond()
    ensures Echelon.EliminateFrom(AfterScale(), Echelon.Rref, 1, 1, 0) == Run(AfterAbove(), Go)
  {
    var s2 := AfterScale();
    IntegerCanonical(2);
    var q := Neg(FromInt(2)).value;
    IntCell(q, -2);
    assert Echelon.Factor(s2.m, Echelon.Rref, 1, 1, 0) == Success(FromInt(-2));
    ClearAboveUnit();
    assert Echelon.AddMulStep(s2, 0, 1, FromInt(-2)) == Run(AfterAbove(), Go);
    assert Echelon.EliminateRow(s2, Echelon.Rref, 1, 1, 0) == Run(AfterAbove(), Go);
    assert Echelon.EliminateFrom(AfterAbove(), Echelon.Rref, 1, 1, 1) == Run(AfterAbove(), Go);
  }

  /** The second column of the RREF run: no swap, a scale, one add-multiple. */
  lemma RrefSecondColumn()
    ensures Echelon.PivotColumn(AfterFirst(3, 4), Echelon.Rref, 1, 1, 1) == Run(AfterAbove(), Go)
  {
    RrefNormalizeSecond();
    RrefEliminateSecond();
  }

  /**
   * The RREF test: echelon_apply turns [[1, 2], [3, 4]] into the identity
   * with three reported ops (core/tests/test_rref.cpp).
   */
  lemma RrefExample()
    ensures Echelon.EchelonApply(M2(1, 2, 3, 4), Echelon.Rref, None) == Run(AfterAbove(), Go)
    ensures Echelon.EchelonApply(M2(1, 2, 3, 4), Echelon.Rref, None).s.m == M2(1, 0, 0, 1)
    ensures |Echelon.EchelonApply(M2(1, 2, 3, 4), Echelon.Rref, None).s.trace| == 3
  {
    var s0 := Start(M2(1, 2, 3, 4), None);
    var s1 := AfterFirst(3, 4);
    assert FindPivot(s0.m, 0, 0) == Some(0);
    RrefFirstColumn();
    assert FindPivot(s1.m, 1, 1) == Some(1);
    RrefSecondColumn();
    assert Echelon.Columns(AfterAbove(), Echelon.Rref, 2, 2) == Run(AfterAbove(), Go);
    assert Echelon.Columns(s1, Echelon.Rref, 1, 1) == Run(AfterAbove(), Go);
    assert Echelon.Columns(s0, Echelon.Rref, 0, 0) == Run(AfterAbove(), Go);
  }

  /** op_echelon on [[1, 2], [3, 4]] with RREF writes the identity to out (core/tests/test_rref.cpp). */
  lemma OpEchelonExample(out: Matrix, opts: Explaining.Options)
    requires out.Wf() && out.rows == 2 && out.cols == 2 && Explaining.OptionsValid(opts)
    ensures EchelonOps.OpEchelon(M2(1, 2, 3, 4), Echelon.Rref, out, opts).out == M2(1, 0, 0, 1)
  {
    EchelonOps.OpEchelonCorrect(M2(1, 2, 3, 4), Echelon.Rref, out, opts);
    RrefExample();
  }
}
