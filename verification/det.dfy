/**
 * The determinant kernel (det_detail.cpp, det_elim).
 *
 * Gaussian elimination without normalisation on a square matrix: for each
 * column the pivot is the first nonzero entry on or below the diagonal; it
 * is swapped onto the diagonal (flipping the sign) and the entries below it
 * are cleared with add-multiples of the pivot row. A column without a pivot
 * ends the run with determinant 0. Otherwise the determinant is the sign
 * times the product of the diagonal. A positive `stop_after` ends the run
 * right after that many ops, with determinant 0 and the last op reported.
 *
 * The run is written with the kernel framework: the `ops` counter and the
 * `stop_after` test are an observer whose target is `stop_after`, which
 * behaves exactly like det_elim's counter (stop iff the count reaches the
 * target after an op). A column without a pivot is the outcome
 * Fail(Singular), which DetElim turns into a determinant of 0.
 */
module Det {

  import opened Errors
  import opened Rationals
  import opened Matrices
  import opened RowOps
  import opened Kernels
  import Echelon

  predicate Square(m: Matrix) { m.Wf() && m.rows == m.cols }

  /** The last op reported carries a canonical scalar. */
  predicate StaleValid(t: seq<RowOp>) { |t| > 0 ==> t[|t| - 1].scalar.Valid() }

  /**
   * The scalar det_elim's `last` holds when a swap is reported: a swap does
   * not write it, so it is that of the op reported before (0 at first).
   */
  function Stale(t: seq<RowOp>): (k: Rational)
    requires StaleValid(t)
    ensures k.Valid()
  {
    CoprimeOneZero();
    if |t| == 0 then Zero else t[|t| - 1].scalar
  }

  // ---------------------------------------------------------------------
  // One column
  // ---------------------------------------------------------------------

  /** Swap the pivot row onto the diagonal, reported only when it moves. */
  function DetSwap(s: KState, col: nat, p: nat): (r: Run)
    requires s.m.Wf() && Counted(s) && StaleValid(s.trace) && col <= p < s.m.rows
    ensures Steps(s, r.s) && Replays(s, r) && StaleValid(r.s.trace)
    ensures r.flow == Go || r.flow == Stop
    ensures s.obs.None? ==> r.flow == Go
    ensures |r.s.trace| <= |s.trace| + 1
    ensures p == col ==> r == Run(s, Go)
    ensures p != col ==> r.s.trace == s.trace + [RowOp(Swap, col, p, Stale(s.trace))]
    ensures r.s.m == ApplySwap(s.m, col, p)
  {
    if p == col then
      ReplaysNothing(s, Run(s, Go));
      Run(s, Go)
    else
      var op := RowOp(Swap, col, p, Stale(s.trace));
      ApplyDef(s.m, op);
      ReplaysRecord(s, op, ApplySwap(s.m, col, p));
      Record(s, op, ApplySwap(s.m, col, p))
  }

  /** The multiple of the pivot row that clears `row`: -(below / pivot), dividing first. */
  function DetFactor(m: Matrix, col: nat, row: nat): (r: Result<Rational>)
    requires Square(m) && col < m.rows && row < m.rows && !m.cells[col][col].IsZero()
    ensures r.Failure? ==> r.code == Overflow
    ensures r.Success? ==> r.value.Valid()
  {
    var q :- Div(m.cells[row][col], m.cells[col][col]);
    Neg(q)
  }

  lemma DetFactorValue(m: Matrix, col: nat, row: nat)
    requires Square(m) && col < m.rows && row < m.rows && !m.cells[col][col].IsZero()
    ensures var r := DetFactor(m, col, row);
            r.Success? ==> m.V(col, col) != 0.0 && r.value.Val() == -(m.V(row, col) / m.V(col, col))
  {
  }

  /** The elimination loop below the pivot, from `row` on. */
  function DetEliminateFrom(s: KState, col: nat, row: nat): (r: Run)
    requires Square(s.m) && Counted(s) && StaleValid(s.trace) && col < row <= s.m.rows
    requires !s.m.cells[col][col].IsZero()
    ensures Steps(s, r.s) && Replays(s, r) && StaleValid(r.s.trace)
    ensures r.flow.Fail? ==> r.flow.code == Overflow
    ensures s.obs.None? ==> r.flow != Stop
    ensures r.s.m.cells[col] == s.m.cells[col]
    decreases s.m.rows - row, 1
  {
    if row == s.m.rows then
      ReplaysNothing(s, Run(s, Go));
      Run(s, Go)
    else if s.m.cells[row][col].IsZero() then
      DetEliminateFrom(s, col, row + 1)
    else
      DetEliminateThen(s, col, row)
  }

  /** A row with a nonzero entry: clear it, then carry on below. */
  function DetEliminateThen(s: KState, col: nat, row: nat): (r: Run)
    requires Square(s.m) && Counted(s) && StaleValid(s.trace) && col < row < s.m.rows
    requires !s.m.cells[col][col].IsZero()
    ensures Steps(s, r.s) && Replays(s, r) && StaleValid(r.s.trace)
    ensures r.flow.Fail? ==> r.flow.code == Overflow
    ensures s.obs.None? ==> r.flow != Stop
    ensures r.s.m.cells[col] == s.m.cells[col]
    decreases s.m.rows - row, 0
  {
    match DetFactor(s.m, col, row)
    case Failure(e) =>
      ReplaysFail(s, Run(s, Fail(e)));
      Run(s, Fail(e))
    case Success(f) =>
      var a := Echelon.AddMulStep(s, row, col, f);
      if a.flow != Go then a
      else
        var r := DetEliminateFrom(a.s, col, row + 1);
        Chain(s, a, r);
        r
  }

  /** One column with pivot row p: the swap, then the elimination below the diagonal. */
  function DetColumn(s: KState, col: nat, p: nat): (r: Run)
    requires Square(s.m) && Counted(s) && StaleValid(s.trace) && col <= p < s.m.rows
    requires !s.m.cells[p][col].IsZero()
    ensures Steps(s, r.s) && Replays(s, r) && StaleValid(r.s.trace)
    ensures r.flow.Fail? ==> r.flow.code == Overflow
    ensures s.obs.None? ==> r.flow != Stop
  {
    var a := DetSwap(s, col, p);
    if a.flow != Go then a
    else
      var b := DetEliminateFrom(a.s, col, col + 1);
      Chain(s, a, b);
      b
  }

  // ---------------------------------------------------------------------
  // The column loop
  // ---------------------------------------------------------------------

  function DetColumns(s: KState, col: nat): (r: Run)
    requires Square(s.m) && Counted(s) && StaleValid(s.trace) && col <= s.m.rows
    ensures Steps(s, r.s) && Replays(s, r) && StaleValid(r.s.trace)
    ensures r.flow.Fail? ==> r.flow.code == Overflow || r.flow.code == Singular
    ensures s.obs.None? ==> r.flow != Stop
    decreases s.m.rows - col, 1
  {
    if col == s.m.rows then
      ReplaysNothing(s, Run(s, Go));
      Run(s, Go)
    else
      match FindPivot(s.m, col, col)
      case None =>
        ReplaysFail(s, Run(s, Fail(Singular)));
        Run(s, Fail(Singular))
      case Some(p) => DetPivotThen(s, col, p)
  }

  function DetPivotThen(s: KState, col: nat, p: nat): (r: Run)
    requires Square(s.m) && Counted(s) && StaleValid(s.trace) && col <= p < s.m.rows
    requires !s.m.cells[p][col].IsZero()
    ensures Steps(s, r.s) && Replays(s, r) && StaleValid(r.s.trace)
    ensures r.flow.Fail? ==> r.flow.code == Overflow || r.flow.code == Singular
    ensures s.obs.None? ==> r.flow != Stop
    decreases s.m.rows - col, 0
  {
    var a := DetColumn(s, col, p);
    if a.flow != Go then a
    else
      var r := DetColumns(a.s, col + 1);
      Chain(s, a, r);
      r
  }

  /** The elimination run of det_elim on a square matrix, with a fresh observer or none. */
  function DetRun(m: Matrix, obs: Option<Observer>): (r: Run)
    requires Square(m) && (obs.Some? ==> obs.value.count == 0 && !obs.value.hasLast)
    ensures Square(r.s.m) && SameDim(r.s.m, m) && Counted(r.s)
    ensures r.s.obs.Some? == obs.Some? && (obs.Some? ==> r.s.obs.value.target == obs.value.target)
    ensures r.flow.Fail? ==> r.flow.code == Overflow || r.flow.code == Singular
    ensures obs.None? ==> r.flow != Stop
    ensures !r.flow.Fail? ==> AllFit(r.s.trace, m) && Replay(m, r.s.trace) == Written(r.s.m, Ok)
    ensures AllInvertible(r.s.trace)
  {
    var s := Start(m, obs);
    var r := DetColumns(s, 0);
    ReplaysDef(s, r);
    assert Added(s, r.s) == r.s.trace;
    r
  }

  /** The reported steps can be undone: replaying them from any other matrix of m's shape does not give the result. */
  lemma DetUndoable(m: Matrix, obs: Option<Observer>, m2: Matrix)
    requires Square(m) && (obs.Some? ==> obs.value.count == 0 && !obs.value.hasLast)
    requires m2.Wf() && SameDim(m2, m)
    requires var r := DetRun(m, obs);
             !r.flow.Fail? && Replay(m2, r.s.trace) == Written(r.s.m, Ok)
    ensures m2 == m
  {
    var r := DetRun(m, obs);
    ReplayInjective(m, m2, r.s.trace);
  }

  // ---------------------------------------------------------------------
  // The determinant
  // ---------------------------------------------------------------------

  /** The number of swaps in a trace. */
  function SwapCount(t: seq<RowOp>): (n: nat)
    ensures n <= |t|
  {
    if t == [] then 0
    else SwapCount(t[..|t| - 1]) + (if t[|t| - 1].kind == Swap then 1 else 0)
  }

  /** det_elim's `sign`: flipped once per swap. */
  function Sign(t: seq<RowOp>): (sign: int)
    ensures sign == 1 || sign == -1
    ensures (sign == 1) <==> SwapCount(t) % 2 == 0
  {
    if SwapCount(t) % 2 == 0 then 1 else -1
  }

  /** The product of the diagonal entries from i on, by value. */
  ghost function DiagVal(m: Matrix, i: nat): real
    requires Square(m) && i <= m.rows
    decreases m.rows - i
  {
    if i == m.rows then 1.0 else m.V(i, i) * DiagVal(m, i + 1)
  }

  /** The determinant of a triangular matrix reached by the swaps of `trace`: their sign times the diagonal. */
  ghost function SignedDiag(trace: seq<RowOp>, work: Matrix): real
    requires Square(work)
  {
    (Sign(trace) as real) * DiagVal(work, 0)
  }

  /** The final loop of det_elim: acc times the diagonal from i on, stopping at the first overflow. */
  function DiagProduct(m: Matrix, acc: Rational, i: nat): (r: Result<Rational>)
    requires Square(m) && acc.Valid() && i <= m.rows
    ensures r.Failure? ==> r.code == Overflow
    ensures r.Success? ==> r.value.Valid() && r.value.Val() == acc.Val() * DiagVal(m, i)
    decreases m.rows - i
  {
    if i == m.rows then Success(acc)
    else
      match Mul(acc, m.cells[i][i])
      case Failure(e) => Failure(e)
      case Success(next) =>
        var r := DiagProduct(m, next, i + 1);
        if r.Success? then
          MulAssoc(acc.Val(), m.V(i, i), DiagVal(m, i + 1));
          r
        else r
  }

  lemma MulAssoc(a: real, b: real, c: real)
    ensures (a * b) * c == a * (b * c)
  {
  }

  /**
   * What det_elim writes: its error code, the determinant, the op count and
   * the last op -- each None when det_elim leaves that output untouched --
   * and the working matrix as it left it.
   */
  datatype DetOut = DetOut(ec: ErrorCode, det: Option<Rational>, opCount: Option<nat>, last: Option<RowOp>, work: Matrix)

  /** The last op of a trace, if any. */
  function LastOf(t: seq<RowOp>): Option<RowOp>
  {
    if |t| == 0 then None else Some(t[|t| - 1])
  }

  /**
   * det_elim(m, stop_after). NotSquare leaves every output alone; otherwise
   * the outputs are read off the elimination run (Report).
   */
  function DetElim(m: Matrix, stopAfter: nat): (r: DetOut)
    requires m.Wf()
    ensures m.rows != m.cols ==> r == DetOut(NotSquare, None, None, None, m)
    ensures r.ec == Ok || r.ec == NotSquare || r.ec == Overflow
    ensures r.ec == Ok ==> r.det.Some? && r.det.value.Valid() && r.opCount.Some?
    ensures r.det.Some? ==> r.ec == Ok
    ensures r.last.Some? ==> r.opCount.Some?
    ensures m.rows == m.cols ==> Square(r.work) && SameDim(r.work, m)
  {
    if m.rows != m.cols then DetOut(NotSquare, None, None, None, m)
    else
      var k := DetRun(m, Some(NewObserver(stopAfter)));
      Report(k.flow, k.s.m, k.s.trace, stopAfter)
  }

  /**
   * The outputs of det_elim after its loop ended with `flow`. A column
   * without a pivot writes determinant 0 and the op count but not the last
   * op. An arithmetic error in the loop writes nothing. After the loop the
   * op count and the last op are written; a run that reached stop_after ops
   * reports determinant 0; otherwise the determinant is the sign times the
   * diagonal, and an overflow there comes after the other outputs are
   * written.
   */
  function Report(flow: Flow, work: Matrix, trace: seq<RowOp>, stopAfter: nat): (r: DetOut)
    requires Square(work) && (flow.Fail? ==> flow.code == Overflow || flow.code == Singular)
    ensures r.work == work
    ensures r.ec == Ok || r.ec == Overflow
    ensures r.ec == Ok ==> r.det.Some? && r.det.value.Valid() && r.opCount.Some?
    ensures r.det.Some? ==> r.ec == Ok
    ensures r.last.Some? ==> r.opCount.Some?
    ensures flow == Fail(Overflow) ==> r == DetOut(Overflow, None, None, None, work)
    ensures flow == Fail(Singular) ==> r == DetOut(Ok, Some(Zero), Some(|trace|), None, work)
    ensures !flow.Fail? ==> r.opCount == Some(|trace|) && r.last == LastOf(trace)
    ensures !flow.Fail? && |trace| == stopAfter ==> r.ec == Ok && r.det == Some(Zero)
    ensures !flow.Fail? && |trace| != stopAfter && r.ec == Ok ==>
              r.det.value.Val() == SignedDiag(trace, work)
  {
    CoprimeOneZero();
    match flow
    case Fail(e) =>
      if e == Singular then DetOut(Ok, Some(Zero), Some(|trace|), None, work)
      else DetOut(e, None, None, None, work)
    case _ =>
      if |trace| == stopAfter then DetOut(Ok, Some(Zero), Some(|trace|), LastOf(trace), work)
      else SignedReport(work, trace)
  }

  /** The report of a run that went through: the sign times the diagonal's product. */
  function SignedReport(work: Matrix, trace: seq<RowOp>): (r: DetOut)
    requires Square(work)
    ensures r.work == work && r.opCount == Some(|trace|) && r.last == LastOf(trace)
    ensures r.ec == Ok || r.ec == Overflow
    ensures r.ec == Ok <==> r.det.Some?
    ensures r.ec == Ok ==> r.det.value.Valid() && r.det.value.Val() == SignedDiag(trace, work)
  {
    var sign := Sign(trace);
    var p := DiagProduct(work, FromInt(sign), 0);
    if p.Failure? then DetOut(p.code, None, Some(|trace|), LastOf(trace), work)
    else
      assert FromInt(sign).Val() == sign as real;
      DetOut(Ok, Some(p.value), Some(|trace|), LastOf(trace), work)
  }

  // ---------------------------------------------------------------------
  // The run ends in an upper triangular matrix with a nonzero diagonal
  // ---------------------------------------------------------------------

  /** Every entry below the diagonal in the columns before k is zero. */
  predicate UpperUpTo(m: Matrix, k: nat)
    requires Square(m) && k <= m.rows
  {
    forall i, j :: 0 <= j < k && j < i < m.rows ==> m.cells[i][j].IsZero()
  }

  /** The diagonal entries before k are nonzero. */
  predicate PivotsUpTo(m: Matrix, k: nat)
    requires Square(m) && k <= m.rows
  {
    forall i :: 0 <= i < k ==> !m.cells[i][i].IsZero()
  }

  /** Column col is zero from row `from` on. */
  predicate ClearFrom(m: Matrix, col: nat, from: nat)
    requires Square(m) && col < m.rows
  {
    forall i :: from <= i < m.rows ==> m.cells[i][col].IsZero()
  }

  /** The elimination loop from `row` on leaves the rows above `row` alone. */
  lemma {:induction false} DetEliminateKeeps(s: KState, col: nat, row: nat)
    requires Square(s.m) && Counted(s) && StaleValid(s.trace) && col < row <= s.m.rows
    requires !s.m.cells[col][col].IsZero()
    ensures forall i :: 0 <= i < row ==> DetEliminateFrom(s, col, row).s.m.cells[i] == s.m.cells[i]
    decreases s.m.rows - row, 1
  {
    if row == s.m.rows {
    } else if s.m.cells[row][col].IsZero() {
      DetEliminateKeeps(s, col, row + 1);
    } else {
      DetEliminateThenKeeps(s, col, row);
    }
  }

  lemma {:induction false} DetEliminateThenKeeps(s: KState, col: nat, row: nat)
    requires Square(s.m) && Counted(s) && StaleValid(s.trace) && col < row < s.m.rows
    requires !s.m.cells[col][col].IsZero()
    ensures forall i :: 0 <= i < row ==> DetEliminateThen(s, col, row).s.m.cells[i] == s.m.cells[i]
    decreases s.m.rows - row, 0
  {
    match DetFactor(s.m, col, row)
    case Failure(_) =>
    case Success(f) =>
      var a := Echelon.AddMulStep(s, row, col, f);
      if a.flow == Go {
        DetEliminateKeeps(a.s, col, row + 1);
      }
  }

  /**
   * Adding the factor times the pivot row clears the entry below the pivot
   * and keeps the zeros left of the pivot column (the pivot row has them too).
   */
  lemma AddMulClears(m: Matrix, m': Matrix, col: nat, row: nat, f: Rational)
    requires Square(m) && m'.Wf() && SameDim(m, m') && col < row < m.rows
    requires !m.cells[col][col].IsZero() && DetFactor(m, col, row) == Success(f)
    requires AddedRow(m, m', row, col, f)
    requires forall i :: 0 <= i < m.rows && i != row ==> m'.cells[i] == m.cells[i]
    requires UpperUpTo(m, col)
    ensures m'.cells[row][col].IsZero() && UpperUpTo(m', col)
  {
    DetFactorValue(m, col, row);
    Echelon.Cancels(m.V(row, col), m.V(col, col), f.Val());
    ZeroOneByValue(m'.cells[row][col]);
    forall j | 0 <= j < col
      ensures m'.cells[row][j].IsZero()
    {
      ZeroOneByValue(m.cells[row][j]);
      ZeroOneByValue(m.cells[col][j]);
      assert m'.V(row, j) == m.V(row, j) + m.V(col, j) * f.Val();
      ZeroOneByValue(m'.cells[row][j]);
    }
  }

  /**
   * Once the loop carried on to the end, the pivot column is zero from `row`
   * on and the columns before it are still zero below the diagonal.
   */
  lemma {:induction false} DetEliminateClears(s: KState, col: nat, row: nat)
    requires Square(s.m) && Counted(s) && StaleValid(s.trace) && col < row <= s.m.rows
    requires !s.m.cells[col][col].IsZero() && UpperUpTo(s.m, col)
    ensures var r := DetEliminateFrom(s, col, row);
            r.flow == Go ==> ClearFrom(r.s.m, col, row) && UpperUpTo(r.s.m, col)
    decreases s.m.rows - row, 1
  {
    if row == s.m.rows {
    } else if s.m.cells[row][col].IsZero() {
      var r := DetEliminateFrom(s, col, row + 1);
      assert DetEliminateFrom(s, col, row) == r;
      DetEliminateClears(s, col, row + 1);
      DetEliminateKeeps(s, col, row + 1);
      if r.flow == Go {
        ClearOneMore(s.m, r.s.m, col, row);
      }
    } else {
      DetEliminateThenClears(s, col, row);
    }
  }

  lemma {:induction false} DetEliminateThenClears(s: KState, col: nat, row: nat)
    requires Square(s.m) && Counted(s) && StaleValid(s.trace) && col < row < s.m.rows
    requires !s.m.cells[col][col].IsZero() && UpperUpTo(s.m, col)
    ensures var r := DetEliminateThen(s, col, row);
            r.flow == Go ==> ClearFrom(r.s.m, col, row) && UpperUpTo(r.s.m, col)
    decreases s.m.rows - row, 0
  {
    match DetFactor(s.m, col, row)
    case Failure(_) =>
    case Success(f) =>
      var a := Echelon.AddMulStep(s, row, col, f);
      if a.flow == Go {
        AddMulClears(s.m, a.s.m, col, row, f);
        NextRowsClear(s, a, col, row);
      }
  }

  lemma {:induction false} NextRowsClear(s: KState, a: Run, col: nat, row: nat)
    requires Square(s.m) && col < row < s.m.rows
    requires Steps(s, a.s) && StaleValid(a.s.trace) && a.flow == Go
    requires a.s.m.cells[col] == s.m.cells[col] && !s.m.cells[col][col].IsZero()
    requires a.s.m.cells[row][col].IsZero() && UpperUpTo(a.s.m, col)
    ensures var r := DetEliminateFrom(a.s, col, row + 1);
            r.flow == Go ==> ClearFrom(r.s.m, col, row) && UpperUpTo(r.s.m, col)
    decreases s.m.rows - row, 0, 0
  {
    DetEliminateClears(a.s, col, row + 1);
    DetEliminateKeeps(a.s, col, row + 1);
    var r := DetEliminateFrom(a.s, col, row + 1);
    if r.flow == Go {
      ClearOneMore(a.s.m, r.s.m, col, row);
    }
  }

  /** A zero entry in a row the rest of the loop left alone extends the cleared part by one row. */
  lemma ClearOneMore(m: Matrix, m': Matrix, col: nat, row: nat)
    requires Square(m) && Square(m') && SameDim(m, m') && col < row < m.rows
    requires m'.cells[row] == m.cells[row] && m.cells[row][col].IsZero()
    requires ClearFrom(m', col, row + 1)
    ensures ClearFrom(m', col, row)
  {
  }

  /** A cleared pivot column below a nonzero pivot extends the triangle and the pivots by one. */
  lemma ExtendUpper(m: Matrix, m': Matrix, col: nat)
    requires Square(m) && Square(m') && SameDim(m, m') && col < m.rows
    requires forall i :: 0 <= i <= col ==> m'.cells[i] == m.cells[i]
    requires !m.cells[col][col].IsZero() && PivotsUpTo(m, col)
    requires ClearFrom(m', col, col + 1) && UpperUpTo(m', col)
    ensures UpperUpTo(m', col + 1) && PivotsUpTo(m', col + 1)
  {
  }

  /** Swapping two rows at or below the diagonal keeps the triangle and the pivots above. */
  lemma SwapKeepsUpper(m: Matrix, col: nat, p: nat)
    requires Square(m) && col <= p < m.rows && UpperUpTo(m, col) && PivotsUpTo(m, col)
    ensures UpperUpTo(ApplySwap(m, col, p), col) && PivotsUpTo(ApplySwap(m, col, p), col)
  {
  }

  /** The elimination below a pivot on the diagonal extends the triangle and the pivots by one. */
  lemma EliminateUpper(t: KState, col: nat)
    requires Square(t.m) && Counted(t) && StaleValid(t.trace) && col < t.m.rows
    requires !t.m.cells[col][col].IsZero() && UpperUpTo(t.m, col) && PivotsUpTo(t.m, col)
    ensures var r := DetEliminateFrom(t, col, col + 1);
            r.flow == Go ==> UpperUpTo(r.s.m, col + 1) && PivotsUpTo(r.s.m, col + 1)
  {
    var b := DetEliminateFrom(t, col, col + 1);
    DetEliminateClears(t, col, col + 1);
    DetEliminateKeeps(t, col, col + 1);
    if b.flow == Go {
      ExtendUpper(t.m, b.s.m, col);
    }
  }

  /** A column that carried on extends the triangle and the pivots by one. */
  lemma DetColumnUpper(s: KState, col: nat, p: nat)
    requires Square(s.m) && Counted(s) && StaleValid(s.trace) && col <= p < s.m.rows
    requires !s.m.cells[p][col].IsZero()
    requires UpperUpTo(s.m, col) && PivotsUpTo(s.m, col)
    ensures var r := DetColumn(s, col, p);
            r.flow == Go ==> UpperUpTo(r.s.m, col + 1) && PivotsUpTo(r.s.m, col + 1)
  {
    var a := DetSwap(s, col, p);
    SwapKeepsUpper(s.m, col, p);
    if a.flow == Go {
      EliminateUpper(a.s, col);
    }
  }

  lemma {:induction false} DetColumnsUpper(s: KState, col: nat)
    requires Square(s.m) && Counted(s) && StaleValid(s.trace) && col <= s.m.rows
    requires UpperUpTo(s.m, col) && PivotsUpTo(s.m, col)
    ensures var r := DetColumns(s, col);
            r.flow == Go ==> UpperUpTo(r.s.m, r.s.m.rows) && PivotsUpTo(r.s.m, r.s.m.rows)
    decreases s.m.rows - col, 1
  {
    if col < s.m.rows {
      match FindPivot(s.m, col, col)
      case None =>
      case Some(p) => DetPivotThenUpper(s, col, p);
    }
  }

  lemma {:induction false} DetPivotThenUpper(s: KState, col: nat, p: nat)
    requires Square(s.m) && Counted(s) && StaleValid(s.trace) && col <= p < s.m.rows
    requires !s.m.cells[p][col].IsZero()
    requires UpperUpTo(s.m, col) && PivotsUpTo(s.m, col)
    ensures var r := DetPivotThen(s, col, p);
            r.flow == Go ==> UpperUpTo(r.s.m, r.s.m.rows) && PivotsUpTo(r.s.m, r.s.m.rows)
    decreases s.m.rows - col, 0
  {
    var a := DetColumn(s, col, p);
    DetColumnUpper(s, col, p);
    if a.flow == Go {
      NextColumnsUpper(s, a, col);
    }
  }

  lemma {:induction false} NextColumnsUpper(s: KState, a: Run, col: nat)
    requires Square(s.m) && col < s.m.rows
    requires Steps(s, a.s) && StaleValid(a.s.trace)
    requires UpperUpTo(a.s.m, col + 1) && PivotsUpTo(a.s.m, col + 1)
    ensures var r := DetColumns(a.s, col + 1);
            r.flow == Go ==> UpperUpTo(r.s.m, r.s.m.rows) && PivotsUpTo(r.s.m, r.s.m.rows)
    decreases s.m.rows - col, 0, 0
  {
    DetColumnsUpper(a.s, col + 1);
  }

  // ---------------------------------------------------------------------
  // Op counts
  // ---------------------------------------------------------------------

  /** The loop below the pivot applies at most one op per remaining row. */
  lemma {:induction false} DetEliminateBound(s: KState, col: nat, row: nat)
    requires Square(s.m) && Counted(s) && StaleValid(s.trace) && col < row <= s.m.rows
    requires !s.m.cells[col][col].IsZero()
    ensures |DetEliminateFrom(s, col, row).s.trace| <= |s.trace| + (s.m.rows - row)
    decreases s.m.rows - row, 1
  {
    if row == s.m.rows {
    } else if s.m.cells[row][col].IsZero() {
      DetEliminateBound(s, col, row + 1);
    } else {
      DetEliminateThenBound(s, col, row);
    }
  }

  lemma {:induction false} DetEliminateThenBound(s: KState, col: nat, row: nat)
    requires Square(s.m) && Counted(s) && StaleValid(s.trace) && col < row < s.m.rows
    requires !s.m.cells[col][col].IsZero()
    ensures |DetEliminateThen(s, col, row).s.trace| <= |s.trace| + (s.m.rows - row)
    decreases s.m.rows - row, 0
  {
    match DetFactor(s.m, col, row)
    case Failure(_) =>
    case Success(f) =>
      var a := Echelon.AddMulStep(s, row, col, f);
      if a.flow == Go {
        NextRowsBound(s, a, col, row);
      }
  }

  lemma {:induction false} NextRowsBound(s: KState, a: Run, col: nat, row: nat)
    requires Square(s.m) && col < row < s.m.rows
    requires Square(a.s.m) && a.s.m.rows == s.m.rows && Counted(a.s) && StaleValid(a.s.trace)
    requires |a.s.trace| <= |s.trace| + 1 && !a.s.m.cells[col][col].IsZero()
    ensures |DetEliminateFrom(a.s, col, row + 1).s.trace| <= |s.trace| + (s.m.rows - row)
    decreases s.m.rows - row, 0, 0
  {
    var e := DetEliminateFrom(a.s, col, row + 1);
    DetEliminateBound(a.s, col, row + 1);
    assert |e.s.trace| <= |a.s.trace| + (s.m.rows - (row + 1));
  }

  /** One column applies at most a swap and one op per row below the diagonal. */
  lemma DetColumnBound(s: KState, col: nat, p: nat)
    requires Square(s.m) && Counted(s) && StaleValid(s.trace) && col <= p < s.m.rows
    requires !s.m.cells[p][col].IsZero()
    ensures |DetColumn(s, col, p).s.trace| <= |s.trace| + s.m.rows
  {
    var a := DetSwap(s, col, p);
    if a.flow == Go {
      DetEliminateBound(a.s, col, col + 1);
    }
  }

  lemma {:induction false} DetColumnsBound(s: KState, col: nat)
    requires Square(s.m) && Counted(s) && StaleValid(s.trace) && col <= s.m.rows
    ensures |DetColumns(s, col).s.trace| <= |s.trace| + (s.m.rows - col) * Echelon.COLUMN_OPS
    decreases s.m.rows - col, 1
  {
    if col < s.m.rows {
      match FindPivot(s.m, col, col)
      case None =>
      case Some(p) => DetPivotThenBound(s, col, p);
    }
  }

  lemma {:induction false} DetPivotThenBound(s: KState, col: nat, p: nat)
    requires Square(s.m) && Counted(s) && StaleValid(s.trace) && col <= p < s.m.rows
    requires !s.m.cells[p][col].IsZero()
    ensures |DetPivotThen(s, col, p).s.trace| <= |s.trace| + (s.m.rows - col) * Echelon.COLUMN_OPS
    decreases s.m.rows - col, 0
  {
    var a := DetColumn(s, col, p);
    DetColumnBound(s, col, p);
    if a.flow == Go {
      NextColumnsBound(s, a, col);
    }
  }

  lemma {:induction false} NextColumnsBound(s: KState, a: Run, col: nat)
    requires Square(s.m) && col < s.m.rows
    requires Steps(s, a.s) && StaleValid(a.s.trace) && |a.s.trace| <= |s.trace| + s.m.rows
    ensures |DetColumns(a.s, col + 1).s.trace| <= |s.trace| + (s.m.rows - col) * Echelon.COLUMN_OPS
    decreases s.m.rows - col, 0, 0
  {
    DetColumnsBound(a.s, col + 1);
    Echelon.MoreColumns(|s.trace|, |a.s.trace|, |DetColumns(a.s, col + 1).s.trace|, s.m.rows - (col + 1));
  }

  /** A whole run applies fewer ops than any observer target of size_t(-1) could count. */
  lemma DetRunBound(m: Matrix, obs: Option<Observer>)
    requires Square(m) && (obs.Some? ==> obs.value.count == 0 && !obs.value.hasLast)
    ensures |DetRun(m, obs).s.trace| <= m.rows * Echelon.COLUMN_OPS
    ensures |DetRun(m, obs).s.trace| < NO_TARGET
  {
    DetColumnsBound(Start(m, obs), 0);
    RowsTimesColumnOps(m.rows);
  }

  lemma RowsTimesColumnOps(rows: nat)
    requires rows < 256
    ensures rows * Echelon.COLUMN_OPS < NO_TARGET
  {
    assert rows * Echelon.COLUMN_OPS <= 255 * 257;
  }

  // ---------------------------------------------------------------------
  // Stopping after T ops cuts the unobserved run after T ops
  // ---------------------------------------------------------------------

  lemma DetSwapCut(s1: KState, s2: KState, T: nat, col: nat, p: nat)
    requires Twin(s1, s2, T) && s1.m.Wf() && StaleValid(s1.trace) && col <= p < s1.m.rows
    ensures Cut(DetSwap(s1, col, p), DetSwap(s2, col, p), T)
  {
    if p == col {
      TwinStays(s1, s2, T);
    } else {
      CutRecord(s1, s2, T, RowOp(Swap, col, p, Stale(s1.trace)), ApplySwap(s1.m, col, p));
    }
  }

  lemma {:induction false} DetEliminateFromCut(s1: KState, s2: KState, T: nat, col: nat, row: nat)
    requires Twin(s1, s2, T) && Square(s1.m) && StaleValid(s1.trace) && col < row <= s1.m.rows
    requires !s1.m.cells[col][col].IsZero()
    ensures Cut(DetEliminateFrom(s1, col, row), DetEliminateFrom(s2, col, row), T)
    decreases s1.m.rows - row, 1
  {
    if row == s1.m.rows {
      TwinStays(s1, s2, T);
    } else if s1.m.cells[row][col].IsZero() {
      DetEliminateFromCut(s1, s2, T, col, row + 1);
    } else {
      DetEliminateThenCut(s1, s2, T, col, row);
    }
  }

  lemma {:induction false} DetEliminateThenCut(s1: KState, s2: KState, T: nat, col: nat, row: nat)
    requires Twin(s1, s2, T) && Square(s1.m) && StaleValid(s1.trace) && col < row < s1.m.rows
    requires !s1.m.cells[col][col].IsZero()
    ensures Cut(DetEliminateThen(s1, col, row), DetEliminateThen(s2, col, row), T)
    decreases s1.m.rows - row, 0
  {
    match DetFactor(s1.m, col, row)
    case Failure(_) =>
      CutSame(DetEliminateThen(s1, col, row), DetEliminateThen(s2, col, row), T);
    case Success(f) =>
      var a1 := Echelon.AddMulStep(s1, row, col, f);
      var a2 := Echelon.AddMulStep(s2, row, col, f);
      Echelon.AddMulCut(s1, s2, T, row, col, f);
      var b1 := if a1.flow == Go then DetEliminateFrom(a1.s, col, row + 1) else a1;
      var b2 := if a2.flow == Go then DetEliminateFrom(a2.s, col, row + 1) else a2;
      if a1.flow == Go && |a2.s.trace| < T {
        NextRowsCut(s1, s2, a1, a2, T, col, row);
      }
      CutThen(T, a1, a2, b1, b2);
  }

  lemma {:induction false} NextRowsCut(s1: KState, s2: KState, a1: Run, a2: Run, T: nat, col: nat, row: nat)
    requires Twin(s1, s2, T) && Square(s1.m) && col < row < s1.m.rows
    requires Steps(s1, a1.s) && Steps(s2, a2.s) && Cut(a1, a2, T)
    requires StaleValid(a1.s.trace) && StaleValid(a2.s.trace)
    requires a1.flow == Go && |a2.s.trace| < T
    requires !a1.s.m.cells[col][col].IsZero() && !a2.s.m.cells[col][col].IsZero()
    ensures a2.flow == Go
    ensures Cut(DetEliminateFrom(a1.s, col, row + 1), DetEliminateFrom(a2.s, col, row + 1), T)
    decreases s1.m.rows - row, 0, 0
  {
    TwinAfter(s1, s2, T, a1, a2);
    assert Twin(a1.s, a2.s, T) && Square(a1.s.m) && a1.s.m.rows == s1.m.rows;
    var e1 := DetEliminateFrom(a1.s, col, row + 1);
    var e2 := DetEliminateFrom(a2.s, col, row + 1);
    DetEliminateFromCut(a1.s, a2.s, T, col, row + 1);
    assert Cut(e1, e2, T);
  }

  lemma DetColumnCut(s1: KState, s2: KState, T: nat, col: nat, p: nat)
    requires Twin(s1, s2, T) && Square(s1.m) && StaleValid(s1.trace) && col <= p < s1.m.rows
    requires !s1.m.cells[p][col].IsZero()
    ensures Cut(DetColumn(s1, col, p), DetColumn(s2, col, p), T)
  {
    var a1 := DetSwap(s1, col, p);
    var a2 := DetSwap(s2, col, p);
    DetSwapCut(s1, s2, T, col, p);
    var b1 := if a1.flow == Go then DetEliminateFrom(a1.s, col, col + 1) else a1;
    var b2 := if a2.flow == Go then DetEliminateFrom(a2.s, col, col + 1) else a2;
    if a1.flow == Go && |a2.s.trace| < T {
      TwinAfter(s1, s2, T, a1, a2);
      DetEliminateFromCut(a1.s, a2.s, T, col, col + 1);
    }
    CutThen(T, a1, a2, b1, b2);
  }

  lemma {:induction false} DetColumnsCut(s1: KState, s2: KState, T: nat, col: nat)
    requires Twin(s1, s2, T) && Square(s1.m) && StaleValid(s1.trace) && col <= s1.m.rows
    ensures Cut(DetColumns(s1, col), DetColumns(s2, col), T)
    decreases s1.m.rows - col, 2
  {
    if col == s1.m.rows {
      TwinStays(s1, s2, T);
    } else {
      match FindPivot(s1.m, col, col)
      case None => CutSame(DetColumns(s1, col), DetColumns(s2, col), T);
      case Some(p) => DetPivotThenCut(s1, s2, T, col, p);
    }
  }

  lemma {:induction false} DetPivotThenCut(s1: KState, s2: KState, T: nat, col: nat, p: nat)
    requires Twin(s1, s2, T) && Square(s1.m) && StaleValid(s1.trace) && col <= p < s1.m.rows
    requires !s1.m.cells[p][col].IsZero()
    ensures Cut(DetPivotThen(s1, col, p), DetPivotThen(s2, col, p), T)
    decreases s1.m.rows - col, 1
  {
    var a1 := DetColumn(s1, col, p);
    var a2 := DetColumn(s2, col, p);
    DetColumnCut(s1, s2, T, col, p);
    var b1 := if a1.flow == Go then DetColumns(a1.s, col + 1) else a1;
    var b2 := if a2.flow == Go then DetColumns(a2.s, col + 1) else a2;
    if a1.flow == Go && |a2.s.trace| < T {
      NextColumnsCut(s1, s2, a1, a2, T, col);
    }
    CutThen(T, a1, a2, b1, b2);
  }

  lemma {:induction false} NextColumnsCut(s1: KState, s2: KState, a1: Run, a2: Run, T: nat, col: nat)
    requires Twin(s1, s2, T) && Square(s1.m) && col < s1.m.rows
    requires Steps(s1, a1.s) && Steps(s2, a2.s) && Cut(a1, a2, T)
    requires StaleValid(a1.s.trace) && StaleValid(a2.s.trace)
    requires a1.flow == Go && |a2.s.trace| < T
    ensures a2.flow == Go
    ensures Cut(DetColumns(a1.s, col + 1), DetColumns(a2.s, col + 1), T)
    decreases s1.m.rows - col, 0
  {
    TwinAfter(s1, s2, T, a1, a2);
    DetColumnsCut(a1.s, a2.s, T, col + 1);
  }

  /** With stop_after = T >= 1 the run is the unobserved run cut after its T-th op. */
  lemma DetRunCut(m: Matrix, T: nat)
    requires Square(m) && T >= 1
    ensures Cut(DetRun(m, Some(NewObserver(T))), DetRun(m, None), T)
  {
    DetColumnsCut(Start(m, Some(NewObserver(T))), Start(m, None), T, 0);
  }

  // ---------------------------------------------------------------------
  // What det_elim reports
  // ---------------------------------------------------------------------

  /** Nonzero pivots make a nonzero diagonal product. */
  lemma {:induction false} DiagNonzero(m: Matrix, i: nat)
    requires Square(m) && i <= m.rows && PivotsUpTo(m, m.rows)
    ensures DiagVal(m, i) != 0.0
    decreases m.rows - i
  {
    if i < m.rows {
      DiagNonzero(m, i + 1);
      ZeroOneByValue(m.cells[i][i]);
    }
  }

  /**
   * det_elim with the default stop_after (size_t(-1)), in terms of the
   * unobserved run: an overflow in the loop is reported as such; a column
   * without a pivot gives determinant 0 without a last op; a completed run
   * ends in an upper triangular matrix with nonzero diagonal, reached by
   * replaying the ops from the input, and the determinant is the sign of
   * the swaps times the diagonal product -- never 0.
   */
  lemma DetElimComplete(m: Matrix)
    requires Square(m)
    ensures var full := DetRun(m, None);
            var d := DetElim(m, NO_TARGET);
            d.work == full.s.m &&
            (full.flow == Fail(Overflow) ==> d == DetOut(Overflow, None, None, None, full.s.m)) &&
            (full.flow == Fail(Singular) ==> d == DetOut(Ok, Some(Zero), Some(|full.s.trace|), None, full.s.m))
    ensures var full := DetRun(m, None);
            var d := DetElim(m, NO_TARGET);
            full.flow == Go ==>
              d.opCount == Some(|full.s.trace|) && d.last == LastOf(full.s.trace) &&
              (d.ec == Ok || d.ec == Overflow) &&
              UpperUpTo(d.work, m.rows) && PivotsUpTo(d.work, m.rows) &&
              Replay(m, full.s.trace) == Written(d.work, Ok) &&
              (d.ec == Ok ==> d.det.value.Val() == SignedDiag(full.s.trace, d.work) &&
                              d.det.value.Val() != 0.0)
  {
    var full := DetRun(m, None);
    DetElimUnobserved(m);
    DetRunBound(m, None);
    if full.flow == Go {
      DetRunTriangular(m);
      DiagNonzero(full.s.m, 0);
      SignedNonzero(full.s.trace, full.s.m);
    }
  }

  lemma SignedNonzero(trace: seq<RowOp>, work: Matrix)
    requires Square(work) && DiagVal(work, 0) != 0.0
    ensures SignedDiag(trace, work) != 0.0
  {
  }

  /** A completed unobserved run ends upper triangular with a nonzero diagonal. */
  lemma DetRunTriangular(m: Matrix)
    requires Square(m)
    ensures var full := DetRun(m, None);
            full.flow == Go ==> UpperUpTo(full.s.m, m.rows) && PivotsUpTo(full.s.m, m.rows)
  {
    var s := Start(m, None);
    assert UpperUpTo(s.m, 0) && PivotsUpTo(s.m, 0);
    DetColumnsUpper(s, 0);
  }

  /** The default call reports on the unobserved run. */
  lemma DetElimUnobserved(m: Matrix)
    requires Square(m)
    ensures var full := DetRun(m, None);
            DetElim(m, NO_TARGET) == Report(full.flow, full.s.m, full.s.trace, NO_TARGET)
  {
    var full := DetRun(m, None);
    var obs := DetRun(m, Some(NewObserver(NO_TARGET)));
    DetRunCut(m, NO_TARGET);
    DetRunBound(m, None);
    CutDef(obs, full, NO_TARGET);
  }

  /**
   * det_elim with stop_after = T >= 1, as the on-demand renderer calls it:
   * if the unobserved run applies at least T ops, it reports T ops, the T-th
   * op as the last one, determinant 0, and leaves the matrix the first T ops
   * produce; if it applies fewer, the outcome is that of the default call.
   */
  lemma DetElimStep(m: Matrix, T: nat)
    requires Square(m) && T >= 1
    ensures var full := DetRun(m, None);
            var d := DetElim(m, T);
            |full.s.trace| >= T ==>
              d.ec == Ok && d.det == Some(Zero) && d.opCount == Some(T) &&
              d.last == Some(full.s.trace[T - 1]) &&
              AllFit(full.s.trace[..T], m) && Replay(m, full.s.trace[..T]) == Written(d.work, Ok)
    ensures var full := DetRun(m, None);
            |full.s.trace| < T ==> DetElim(m, T) == DetElim(m, NO_TARGET)
  {
    var full := DetRun(m, None);
    var r1 := DetRun(m, Some(NewObserver(T)));
    DetRunCut(m, T);
    DetRunBound(m, None);
    CutDef(r1, full, T);
    DetElimUnobserved(m);
    if |full.s.trace| >= T {
      assert r1.s.trace[T - 1] == full.s.trace[T - 1];
    }
  }
}
