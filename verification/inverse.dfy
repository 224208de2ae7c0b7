/**
 * The inverse (ops_inverse_ondemand.cpp): Gauss-Jordan elimination on the
 * augmented matrix [A | I].
 *
 * inverse_apply walks the pivots 0..n-1 of the left half. Each pivot is the
 * first nonzero entry on or below the diagonal of its column (none: the
 * matrix is Singular); it is swapped onto the diagonal, scaled to exactly 1
 * (skipped when it already is 1) and its column is cleared in every other
 * row with the factor -entry. That is one RREF pivot column of the echelon
 * kernel with the pivot row equal to the column, so the run is written with
 * Echelon.PivotColumn. When it completes, the left half is the identity and
 * the right half is what the same ops make of I.
 */
module Inverse {

  import opened Errors
  import opened Rationals
  import opened Matrices
  import opened RowOps
  import opened Kernels
  import opened Arenas
  import opened Writers
  import opened Explaining
  import Echelon
  import NumberTheory
  import Latex
  import Captions

  // ---------------------------------------------------------------------
  // The augmented matrix
  // ---------------------------------------------------------------------

  /** The n x n identity. */
  function Identity(n: nat): (m: Matrix)
    requires n < 256
    ensures m.Wf() && m.rows == n && m.cols == n
  {
    CoprimeOneZero();
    Matrix(n, n, seq(n, i => seq(n, j => if i == j then One else Zero)))
  }

  /** The n x n block of m whose first column is `from` (the left and right views). */
  function Block(m: Matrix, n: nat, from: nat): (b: Matrix)
    requires m.Wf() && n <= m.rows && from + n <= m.cols
    ensures b.Wf() && b.rows == n && b.cols == n
    ensures forall i, j :: 0 <= i < n && 0 <= j < n ==> b.cells[i][j] == m.cells[i][from + j]
  {
    Matrix(n, n, seq(n, i requires 0 <= i < n => seq(n, j requires 0 <= j < n => m.cells[i][from + j])))
  }

  /** [A | I] for a square A of order n < 128. */
  function Augmented(a: Matrix): (m: Matrix)
    requires a.Wf() && a.rows == a.cols && a.rows < 128
    ensures m.Wf() && m.rows == a.rows && m.cols == 2 * a.rows
  {
    CoprimeOneZero();
    var n := a.rows;
    Matrix(n, 2 * n, seq(n, i requires 0 <= i < n =>
      seq(2 * n, j requires 0 <= j < 2 * n =>
        if j < n then a.cells[i][j] else if j - n == i then One else Zero)))
  }

  /** The two halves of [A | I] are A and I. */
  lemma AugmentedHalves(a: Matrix)
    requires a.Wf() && a.rows == a.cols && a.rows < 128
    ensures Block(Augmented(a), a.rows, 0) == a
    ensures Block(Augmented(a), a.rows, a.rows) == Identity(a.rows)
  {
    var m := Augmented(a);
    var n := a.rows;
    var left := Block(m, n, 0);
    var right := Block(m, n, n);
    var id := Identity(n);
    forall i | 0 <= i < n
      ensures left.cells[i] == a.cells[i] && right.cells[i] == id.cells[i]
    {
      assert forall j :: 0 <= j < n ==> left.cells[i][j] == a.cells[i][j];
      assert forall j :: 0 <= j < n ==> right.cells[i][j] == id.cells[i][j];
    }
    assert left.cells == a.cells;
    assert right.cells == id.cells;
  }

  /**
   * The column count build_augmented stores: the uint8 value of 2n, which
   * wraps to 2n - 256 from n = 128 on. It is also the row stride.
   */
  function AugmentedColsAsWritten(n: nat): (c: nat)
    requires n < 256
    ensures c < 256
    ensures n < 128 ==> c == 2 * n
    ensures n >= 128 ==> c == 2 * n - 256
  {
    (2 * n) % 256
  }

  /** The block build_augmented requests: n rows of the stored width. */
  function AugmentedCountAsWritten(n: nat): (c: nat)
    requires n < 256
    ensures n < 128 ==> c == n * (2 * n)
    ensures n == 128 ==> c == 0
  {
    n * AugmentedColsAsWritten(n)
  }

  /**
   * The flat indices row * width + col that the copy loop of row `row`
   * writes, in order: columns 0 .. n-1 from A, then the 1 at the uint8
   * column n + row.
   */
  function RowWrites(n: nat, width: nat, row: nat): (w: seq<nat>)
    ensures |w| == n + 1
    ensures forall c :: 0 <= c < n ==> w[c] == row * width + c
    ensures w[n] == row * width + (n + row) % 256
  {
    seq(n, c => row * width + c) + [row * width + (n + row) % 256]
  }

  /** The writes of the rows before `rows`, in loop order. */
  function AugmentedWrites(n: nat, width: nat, rows: nat): (w: seq<nat>)
    ensures |w| == rows * (n + 1)
  {
    if rows == 0 then []
    else AugmentedWrites(n, width, rows - 1) + RowWrites(n, width, rows - 1)
  }

  /** Entry c of row r's writes sits at r * (n + 1) + c of the whole sequence. */
  lemma {:induction false} AugmentedWritesAt(n: nat, width: nat, rows: nat, r: nat, c: nat)
    requires r < rows && c <= n
    ensures r * (n + 1) + c < |AugmentedWrites(n, width, rows)|
    ensures AugmentedWrites(n, width, rows)[r * (n + 1) + c] == RowWrites(n, width, r)[c]
  {
    NumberTheory.MulMono(r + 1, rows, n + 1);
    if r < rows - 1 {
      AugmentedWritesAt(n, width, rows - 1, r, c);
    }
  }

  /**
   * build_augmented as written, in a build with NDEBUG (at_mut's bounds
   * asserts compiled out), up to its writes: NotSquare for a
   * non-square input; Overflow when the arena refuses the block of
   * AugmentedCountAsWritten cells; otherwise the flat indices it writes.
   */
  function BuildAugmentedAsWritten(arena: Arena, a: Matrix): (r: Result<seq<nat>>)
    requires arena.Valid() && a.Wf()
    ensures a.rows != a.cols ==> r == Failure(NotSquare)
    ensures r.Failure? ==> r.code in {NotSquare, Overflow}
    ensures a.rows == a.cols ==>
              (r.Success? <==> Allocate(arena, RATIONAL_SIZE * AugmentedCountAsWritten(a.rows), RATIONAL_ALIGN).Some?)
    ensures r.Success? ==> |r.value| == a.rows * (a.rows + 1)
  {
    if a.rows != a.cols then Failure(NotSquare)
    else
      var n := a.rows;
      assert IsPow2(RATIONAL_ALIGN);
      NumberTheory.MulMono(AugmentedColsAsWritten(n), 256, n);
      match Allocate(arena, RATIONAL_SIZE * AugmentedCountAsWritten(n), RATIONAL_ALIGN)
      case None => Failure(Overflow)
      case Some(_) => Success(AugmentedWrites(n, AugmentedColsAsWritten(n), n))
  }

  /** Below order 128 every write of build_augmented lands inside its block. */
  lemma AugmentedWritesInBlock(arena: Arena, a: Matrix, k: nat)
    requires arena.Valid() && a.Wf() && a.rows < 128
    requires BuildAugmentedAsWritten(arena, a).Success? && k < |BuildAugmentedAsWritten(arena, a).value|
    ensures BuildAugmentedAsWritten(arena, a).value[k] < AugmentedCountAsWritten(a.rows)
  {
    var n := a.rows;
    assert BuildAugmentedAsWritten(arena, a).value == AugmentedWrites(n, 2 * n, n);
    WriteInBlock(n, k);
  }

  /** The k-th write for a width of 2n is below n * 2n. */
  lemma {:induction false} WriteInBlock(n: nat, k: nat)
    requires k < n * (n + 1)
    ensures AugmentedWrites(n, 2 * n, n)[k] < n * (2 * n)
  {
    var r := k / (n + 1);
    var c := k % (n + 1);
    assert k == r * (n + 1) + c;
    if r >= n {
      NumberTheory.MulMono(n, r, n + 1);
      assert false;
    }
    AugmentedWritesAt(n, 2 * n, n, r, c);
    RowWriteBelow(n, r, c);
  }

  lemma RowWriteBelow(n: nat, r: nat, c: nat)
    requires r < n && c <= n
    ensures RowWrites(n, 2 * n, r)[c] < n * (2 * n)
  {
    var w := RowWrites(n, 2 * n, r);
    assert w[c] < r * (2 * n) + 2 * n;
    assert r * (2 * n) + 2 * n == (r + 1) * (2 * n);
    NumberTheory.MulMono(r + 1, n, 2 * n);
  }

  /** Order 128: the width wraps to 0, the empty block is refused, nothing is written. */
  lemma AugmentedWrapRefused(arena: Arena, a: Matrix)
    requires arena.Valid() && a.Wf() && a.rows == 128 && a.cols == 128
    ensures AugmentedCountAsWritten(128) == 0
    ensures BuildAugmentedAsWritten(arena, a) == Failure(Overflow)
  {
  }

  /**
   * Order 129: the width wraps to 2, the block holds 258 cells, and the
   * copy of A's entry (65, 128) goes to index 258, past the block's end.
   */
  lemma AugmentedWrapOverruns(arena: Arena, a: Matrix)
    requires arena.Valid() && a.Wf() && a.rows == 129 && a.cols == 129
    requires BuildAugmentedAsWritten(arena, a).Success?
    ensures AugmentedCountAsWritten(129) == 258
    ensures BuildAugmentedAsWritten(arena, a).value[65 * 130 + 128] == 258
  {
    AugmentedWritesAt(129, 2, 129, 65, 128);
  }

  /**
   * Order 129, in loop order: the first write past the block is row 43's 1,
   * at the uint8 column 129 + 43 = 172 and index 43 * 2 + 172 = 258; every
   * write before it is inside the block.
   */
  lemma AugmentedFirstOverrun(arena: Arena, a: Matrix)
    requires arena.Valid() && a.Wf() && a.rows == 129 && a.cols == 129
    requires BuildAugmentedAsWritten(arena, a).Success?
    ensures BuildAugmentedAsWritten(arena, a).value[43 * 130 + 129] == 258
    ensures forall k :: 0 <= k < 43 * 130 + 129 ==> BuildAugmentedAsWritten(arena, a).value[k] < 258
  {
    var w := BuildAugmentedAsWritten(arena, a).value;
    assert w == AugmentedWrites(129, 2, 129);
    AugmentedWritesAt(129, 2, 129, 43, 129);
    forall k | 0 <= k < 43 * 130 + 129
      ensures w[k] < 258
    {
      var r, c := k / 130, k % 130;
      assert k == r * 130 + c && r <= 43;
      AugmentedWritesAt(129, 2, 129, r, c);
    }
  }

  /**
   * build_augmented into an arena: NotSquare for a non-square input;
   * otherwise 2n rationals per row are requested (Overflow if the arena
   * refuses, which includes n = 0: an empty block is never handed out) and
   * filled with [A | I]. Orders from 128 on, where the source's uint8 width
   * wraps, are refused with InvalidDimension (see AugmentedWrapOverruns).
   */
  function BuildAugmented(arena: Arena, a: Matrix): (r: Result<Allocated>)
    requires arena.Valid() && a.Wf()
    ensures a.rows != a.cols ==> r == Failure(NotSquare)
    ensures r.Failure? ==> r.code in {NotSquare, InvalidDimension, Overflow}
    ensures r.Failure? && r.code == InvalidDimension <==> a.rows == a.cols && a.rows >= 128
    ensures a.rows == a.cols && a.rows < 128 ==>
              (r.Success? <==> Allocate(arena, RATIONAL_SIZE * a.rows * (2 * a.rows), RATIONAL_ALIGN).Some?)
    ensures r.Success? ==> a.rows == a.cols && a.rows > 0 && a.rows < 128
    ensures r.Success? ==> r.value.m == Augmented(a) && r.value.arena.Valid()
  {
    if a.rows != a.cols then Failure(NotSquare)
    else if a.rows >= 128 then Failure(InvalidDimension)
    else
      var n := a.rows;
      assert IsPow2(RATIONAL_ALIGN);
      match Allocate(arena, RATIONAL_SIZE * n * (2 * n), RATIONAL_ALIGN)
      case None => Failure(Overflow)
      case Some(block) => Success(Allocated(Augmented(a), block.arena))
  }

  // ---------------------------------------------------------------------
  // inverse_apply
  // ---------------------------------------------------------------------

  /** The kernel's shape: n rows and at least n columns. */
  predicate Wide(m: Matrix) { m.Wf() && m.rows <= m.cols }

  /** The pivot loop of inverse_apply from pivot p on. */
  function InvColumns(s: KState, p: nat): (r: Run)
    requires Wide(s.m) && Counted(s) && p <= s.m.rows
    ensures Steps(s, r.s) && Replays(s, r)
    ensures r.flow.Fail? ==> r.flow.code == Overflow || r.flow.code == Singular
    ensures s.obs.None? ==> r.flow != Stop
    decreases s.m.rows - p, 1
  {
    if p == s.m.rows then
      ReplaysNothing(s, Run(s, Go));
      Run(s, Go)
    else
      match FindPivot(s.m, p, p)
      case None =>
        ReplaysFail(s, Run(s, Fail(Singular)));
        Run(s, Fail(Singular))
      case Some(best) => InvPivotThen(s, p, best)
  }

  /** A pivot found for column p: swap, scale to 1 and clear the column, then go on. */
  function InvPivotThen(s: KState, p: nat, best: nat): (r: Run)
    requires Wide(s.m) && Counted(s) && p <= best < s.m.rows
    requires !s.m.cells[best][p].IsZero()
    ensures Steps(s, r.s) && Replays(s, r)
    ensures r.flow.Fail? ==> r.flow.code == Overflow || r.flow.code == Singular
    ensures s.obs.None? ==> r.flow != Stop
    decreases s.m.rows - p, 0
  {
    var a := Echelon.PivotColumn(s, Echelon.Rref, p, p, best);
    if a.flow != Go then a
    else
      var r := InvColumns(a.s, p + 1);
      Chain(s, a, r);
      r
  }

  /**
   * inverse_apply(aug, n, obs) on an augmented matrix, with a fresh observer
   * or none. Stop is the observer's early return (reported as Ok).
   */
  function InverseRun(m: Matrix, obs: Option<Observer>): (r: Run)
    requires Wide(m) && (obs.Some? ==> obs.value.count == 0 && !obs.value.hasLast)
    ensures Wide(r.s.m) && SameDim(r.s.m, m) && Counted(r.s)
    ensures r.s.obs.Some? == obs.Some? && (obs.Some? ==> r.s.obs.value.target == obs.value.target)
    ensures r.flow.Fail? ==> r.flow.code == Overflow || r.flow.code == Singular
    ensures obs.None? ==> r.flow != Stop
    ensures !r.flow.Fail? ==> AllFit(r.s.trace, m) && Replay(m, r.s.trace) == Written(r.s.m, Ok)
    ensures AllInvertible(r.s.trace)
  {
    var s := Start(m, obs);
    var r := InvColumns(s, 0);
    ReplaysDef(s, r);
    assert Added(s, r.s) == r.s.trace;
    r
  }

  /** The reported steps can be undone: replaying them from any other matrix of m's shape does not give the result. */
  lemma InverseUndoable(m: Matrix, obs: Option<Observer>, m2: Matrix)
    requires Wide(m) && (obs.Some? ==> obs.value.count == 0 && !obs.value.hasLast)
    requires m2.Wf() && SameDim(m2, m)
    requires var r := InverseRun(m, obs);
             !r.flow.Fail? && Replay(m2, r.s.trace) == Written(r.s.m, Ok)
    ensures m2 == m
  {
    var r := InverseRun(m, obs);
    ReplayInjective(m, m2, r.s.trace);
  }

  // ---------------------------------------------------------------------
  // A completed run leaves the identity on the left
  // ---------------------------------------------------------------------

  /** Entry (i, j) is that of the identity: exactly One on the diagonal, zero elsewhere. */
  predicate UnitAt(m: Matrix, i: nat, j: nat)
    requires m.Wf() && i < m.rows && j < m.cols
  {
    if i == j then m.cells[i][j] == One else m.cells[i][j].IsZero()
  }

  /** The columns before k are those of the identity. */
  predicate UnitUpTo(m: Matrix, k: nat)
    requires Wide(m) && k <= m.rows
  {
    forall i, j :: 0 <= j < k && 0 <= i < m.rows ==> UnitAt(m, i, j)
  }

  /** Swapping two rows at or below the diagonal keeps the unit columns before it. */
  lemma SwapKeepsUnits(s: KState, p: nat, best: nat)
    requires Wide(s.m) && Counted(s) && p <= best < s.m.rows && UnitUpTo(s.m, p)
    ensures Echelon.SwapStep(s, p, best).s.m == ApplySwap(s.m, p, best)
    ensures UnitUpTo(Echelon.SwapStep(s, p, best).s.m, p)
  {
    var m' := ApplySwap(s.m, p, best);
    forall i, j | 0 <= j < p && 0 <= i < s.m.rows
      ensures UnitAt(m', i, j)
    {
      assert UnitAt(s.m, i, j);
      if i == p {
        assert UnitAt(s.m, best, j);
      } else if i == best {
        assert UnitAt(s.m, p, j);
      }
    }
  }

  /** A row that is zero before column k stays zero there when scaled by any factor. */
  lemma ScaleKeepsUnits(m: Matrix, m': Matrix, p: nat, k: Rational)
    requires Wide(m) && Wide(m') && SameDim(m, m') && p < m.rows && k.Valid() && UnitUpTo(m, p)
    requires ScaledRow(m, m', p, k)
    requires forall i :: 0 <= i < m.rows && i != p ==> m'.cells[i] == m.cells[i]
    ensures UnitUpTo(m', p)
  {
    forall i, j | 0 <= j < p && 0 <= i < m.rows
      ensures UnitAt(m', i, j)
    {
      assert UnitAt(m, i, j);
      if i == p {
        ZeroOneByValue(m.cells[p][j]);
        assert m'.V(p, j) == m.V(p, j) * k.Val();
        ZeroOneByValue(m'.cells[p][j]);
      }
    }
  }

  /** Normalising the pivot row keeps the unit columns before the pivot. */
  lemma NormalizeKeepsUnits(s: KState, p: nat)
    requires Wide(s.m) && Counted(s) && p < s.m.rows && UnitUpTo(s.m, p)
    requires !s.m.cells[p][p].IsZero()
    ensures var b := Echelon.NormalizeStep(s, Echelon.Rref, p, p);
            b.flow == Go ==> Wide(b.s.m) && UnitUpTo(b.s.m, p)
  {
    var pivot := s.m.cells[p][p];
    if !pivot.IsOne() {
      match Div(FromInt(1), pivot)
      case Failure(_) =>
      case Success(inv) =>
        ZeroOneByValue(inv);
        var b := Echelon.ScaleStep(s, p, inv);
        if b.flow == Go {
          ScaleKeepsUnits(s.m, b.s.m, p, inv);
        }
    }
  }

  /** Adding a multiple of a row that is zero before column k keeps those columns. */
  lemma AddMulKeepsUnits(m: Matrix, m': Matrix, row: nat, p: nat, f: Rational)
    requires Wide(m) && Wide(m') && SameDim(m, m') && row < m.rows && p < m.rows && row != p
    requires f.Valid() && UnitUpTo(m, p)
    requires AddedRow(m, m', row, p, f)
    requires forall i :: 0 <= i < m.rows && i != row ==> m'.cells[i] == m.cells[i]
    ensures UnitUpTo(m', p)
  {
    forall i, j | 0 <= j < p && 0 <= i < m.rows
      ensures UnitAt(m', i, j)
    {
      assert UnitAt(m, i, j);
      if i == row {
        assert UnitAt(m, p, j);
        ZeroOneByValue(m.cells[p][j]);
        ZeroOneByValue(m.cells[row][j]);
        assert m'.V(row, j) == m.V(row, j) + m.V(p, j) * f.Val();
        assert m'.V(row, j) == m.V(row, j);
        ZeroOneByValue(m'.cells[row][j]);
      }
    }
  }

  /** One step of the RREF elimination loop keeps the unit columns before the pivot. */
  lemma EliminateRowKeepsUnits(s: KState, p: nat, row: nat)
    requires Wide(s.m) && Counted(s) && p < s.m.rows && row < s.m.rows && row != p
    requires !s.m.cells[p][p].IsZero() && UnitUpTo(s.m, p)
    ensures var a := Echelon.EliminateRow(s, Echelon.Rref, p, p, row);
            a.flow == Go ==> Wide(a.s.m) && UnitUpTo(a.s.m, p)
  {
    match Echelon.Factor(s.m, Echelon.Rref, p, p, row)
    case Failure(_) =>
    case Success(f) =>
      var a := Echelon.AddMulStep(s, row, p, f);
      if a.flow == Go {
        AddMulKeepsUnits(s.m, a.s.m, row, p, f);
      }
  }

  lemma {:induction false} EliminateKeepsUnits(s: KState, p: nat, row: nat)
    requires Wide(s.m) && Counted(s) && p < s.m.rows && row <= s.m.rows
    requires !s.m.cells[p][p].IsZero() && UnitUpTo(s.m, p)
    ensures var r := Echelon.EliminateFrom(s, Echelon.Rref, p, p, row);
            r.flow == Go ==> Wide(r.s.m) && UnitUpTo(r.s.m, p)
    decreases s.m.rows - row, 1
  {
    if row == s.m.rows {
    } else if row == p || s.m.cells[row][p].IsZero() {
      EliminateKeepsUnits(s, p, row + 1);
    } else {
      EliminateThenKeepsUnits(s, p, row);
    }
  }

  lemma {:induction false} EliminateThenKeepsUnits(s: KState, p: nat, row: nat)
    requires Wide(s.m) && Counted(s) && p < s.m.rows && row < s.m.rows && row != p
    requires !s.m.cells[p][p].IsZero() && UnitUpTo(s.m, p)
    ensures var r := Echelon.EliminateThen(s, Echelon.Rref, p, p, row);
            r.flow == Go ==> Wide(r.s.m) && UnitUpTo(r.s.m, p)
    decreases s.m.rows - row, 0
  {
    var a := Echelon.EliminateRow(s, Echelon.Rref, p, p, row);
    EliminateRowKeepsUnits(s, p, row);
    if a.flow == Go {
      NextRowsKeepUnits(s, a, p, row);
    }
  }

  lemma {:induction false} NextRowsKeepUnits(s: KState, a: Run, p: nat, row: nat)
    requires Wide(s.m) && p < s.m.rows && row < s.m.rows
    requires Steps(s, a.s) && a.flow == Go && Wide(a.s.m) && UnitUpTo(a.s.m, p)
    requires !a.s.m.cells[p][p].IsZero()
    ensures var r := Echelon.EliminateFrom(a.s, Echelon.Rref, p, p, row + 1);
            r.flow == Go ==> Wide(r.s.m) && UnitUpTo(r.s.m, p)
    decreases s.m.rows - row, 0, 0
  {
    EliminateKeepsUnits(a.s, p, row + 1);
  }

  /** Column p becomes a unit column, and the unit columns before it stay. */
  lemma OneMoreUnit(m: Matrix, p: nat)
    requires Wide(m) && p < m.rows && UnitUpTo(m, p)
    requires m.cells[p][p] == One && Echelon.Cleared(m, Echelon.Rref, p, p, 0)
    ensures UnitUpTo(m, p + 1)
  {
    assert forall i :: 0 <= i < m.rows ==> UnitAt(m, i, p);
  }

  /** A completed pivot column extends the identity block by one column. */
  lemma PivotColumnUnits(s: KState, p: nat, best: nat)
    requires Wide(s.m) && Counted(s) && p <= best < s.m.rows && UnitUpTo(s.m, p)
    requires !s.m.cells[best][p].IsZero()
    ensures var r := Echelon.PivotColumn(s, Echelon.Rref, p, p, best);
            r.flow == Go ==> Wide(r.s.m) && UnitUpTo(r.s.m, p + 1)
  {
    var a := Echelon.SwapStep(s, p, best);
    SwapKeepsUnits(s, p, best);
    if a.flow == Go {
      var b := Echelon.NormalizeStep(a.s, Echelon.Rref, p, p);
      NormalizeKeepsUnits(a.s, p);
      if b.flow == Go {
        var c := Echelon.EliminateFrom(b.s, Echelon.Rref, p, p, 0);
        EliminateKeepsUnits(b.s, p, 0);
        Echelon.EliminateClears(b.s, Echelon.Rref, p, p, 0);
        if c.flow == Go {
          OneMoreUnit(c.s.m, p);
        }
      }
    }
  }

  lemma {:induction false} InvColumnsUnits(s: KState, p: nat)
    requires Wide(s.m) && Counted(s) && p <= s.m.rows && UnitUpTo(s.m, p)
    ensures var r := InvColumns(s, p);
            r.flow == Go ==> UnitUpTo(r.s.m, s.m.rows)
    decreases s.m.rows - p, 1
  {
    if p < s.m.rows {
      match FindPivot(s.m, p, p)
      case None =>
      case Some(best) => InvPivotThenUnits(s, p, best);
    }
  }

  lemma {:induction false} InvPivotThenUnits(s: KState, p: nat, best: nat)
    requires Wide(s.m) && Counted(s) && p <= best < s.m.rows && UnitUpTo(s.m, p)
    requires !s.m.cells[best][p].IsZero()
    ensures var r := InvPivotThen(s, p, best);
            r.flow == Go ==> UnitUpTo(r.s.m, s.m.rows)
    decreases s.m.rows - p, 0
  {
    var a := Echelon.PivotColumn(s, Echelon.Rref, p, p, best);
    PivotColumnUnits(s, p, best);
    if a.flow == Go {
      InvColumnsUnits(a.s, p + 1);
    }
  }

  /** Unit columns 0..n-1 make the left block the identity. */
  lemma LeftIsIdentity(m: Matrix)
    requires Wide(m) && UnitUpTo(m, m.rows)
    ensures Block(m, m.rows, 0) == Identity(m.rows)
  {
    var n := m.rows;
    var left := Block(m, n, 0);
    var id := Identity(n);
    CoprimeOneZero();
    forall i, j | 0 <= i < n && 0 <= j < n
      ensures left.cells[i][j] == id.cells[i][j]
    {
      assert UnitAt(m, i, j);
      if i != j {
        ZeroOneByValue(m.cells[i][j]);
        ZeroOneByValue(Zero);
        ValInjective(m.cells[i][j], Zero);
      }
    }
    forall i | 0 <= i < n
      ensures left.cells[i] == id.cells[i]
    {
    }
    assert left.cells == id.cells;
  }

  /**
   * A run on [A | I] that completes leaves [I | B]: the left block is the
   * identity, and B is what the ops that turned A into I make of I.
   */
  lemma InverseRunIdentity(a: Matrix)
    requires a.Wf() && a.rows == a.cols && a.rows < 128
    ensures var r := InverseRun(Augmented(a), None);
            r.flow == Go ==>
              Block(r.s.m, a.rows, 0) == Identity(a.rows) &&
              Replay(Augmented(a), r.s.trace) == Written(r.s.m, Ok)
  {
    var m := Augmented(a);
    var s := Start(m, None);
    assert UnitUpTo(s.m, 0);
    InvColumnsUnits(s, 0);
    var r := InverseRun(m, None);
    if r.flow == Go {
      LeftIsIdentity(r.s.m);
    }
  }

  // ---------------------------------------------------------------------
  // Op counts, and the observer's early stop
  // ---------------------------------------------------------------------

  lemma {:induction false} InvColumnsBound(s: KState, p: nat)
    requires Wide(s.m) && Counted(s) && p <= s.m.rows
    ensures |InvColumns(s, p).s.trace| <= |s.trace| + (s.m.rows - p) * Echelon.COLUMN_OPS
    decreases s.m.rows - p, 1
  {
    if p < s.m.rows {
      match FindPivot(s.m, p, p)
      case None =>
      case Some(best) => InvPivotThenBound(s, p, best);
    }
  }

  lemma {:induction false} InvPivotThenBound(s: KState, p: nat, best: nat)
    requires Wide(s.m) && Counted(s) && p <= best < s.m.rows
    requires !s.m.cells[best][p].IsZero()
    ensures |InvPivotThen(s, p, best).s.trace| <= |s.trace| + (s.m.rows - p) * Echelon.COLUMN_OPS
    decreases s.m.rows - p, 0
  {
    var a := Echelon.PivotColumn(s, Echelon.Rref, p, p, best);
    Echelon.PivotColumnBound(s, Echelon.Rref, p, p, best);
    if a.flow == Go {
      var r := InvColumns(a.s, p + 1);
      InvColumnsBound(a.s, p + 1);
      assert |a.s.trace| <= |s.trace| + Echelon.COLUMN_OPS;
      Echelon.MoreColumns(|s.trace|, |a.s.trace|, |r.s.trace|, s.m.rows - p - 1);
    }
  }


  /** A whole run applies fewer ops than an observer target of size_t(-1). */
  lemma InverseRunBound(m: Matrix, obs: Option<Observer>)
    requires Wide(m) && (obs.Some? ==> obs.value.count == 0 && !obs.value.hasLast)
    ensures |InverseRun(m, obs).s.trace| <= m.rows * Echelon.COLUMN_OPS < NO_TARGET
  {
    InvColumnsBound(Start(m, obs), 0);
    assert m.rows * Echelon.COLUMN_OPS <= 255 * 257;
  }

  lemma {:induction false} InvColumnsCut(s1: KState, s2: KState, T: nat, p: nat)
    requires Twin(s1, s2, T) && Wide(s1.m) && p <= s1.m.rows
    ensures Cut(InvColumns(s1, p), InvColumns(s2, p), T)
    decreases s1.m.rows - p, 1
  {
    if p == s1.m.rows {
      TwinStays(s1, s2, T);
    } else {
      match FindPivot(s1.m, p, p)
      case None => CutSame(InvColumns(s1, p), InvColumns(s2, p), T);
      case Some(best) => InvPivotThenCut(s1, s2, T, p, best);
    }
  }

  lemma {:induction false} InvPivotThenCut(s1: KState, s2: KState, T: nat, p: nat, best: nat)
    requires Twin(s1, s2, T) && Wide(s1.m) && p <= best < s1.m.rows
    requires !s1.m.cells[best][p].IsZero()
    ensures Cut(InvPivotThen(s1, p, best), InvPivotThen(s2, p, best), T)
    decreases s1.m.rows - p, 0
  {
    var a1 := Echelon.PivotColumn(s1, Echelon.Rref, p, p, best);
    var a2 := Echelon.PivotColumn(s2, Echelon.Rref, p, p, best);
    Echelon.PivotColumnCut(s1, s2, T, Echelon.Rref, p, p, best);
    var b1 := if a1.flow == Go then InvColumns(a1.s, p + 1) else a1;
    var b2 := if a2.flow == Go then InvColumns(a2.s, p + 1) else a2;
    if a1.flow == Go && |a2.s.trace| < T {
      TwinAfter(s1, s2, T, a1, a2);
      InvColumnsCut(a1.s, a2.s, T, p + 1);
    }
    CutThen(T, a1, a2, b1, b2);
  }

  /** An observer that stops after T >= 1 ops cuts the unobserved run after its T-th op. */
  lemma InverseRunCut(m: Matrix, T: nat)
    requires Wide(m) && T >= 1
    ensures Cut(InverseRun(m, Some(NewObserver(T))), InverseRun(m, None), T)
  {
    InvColumnsCut(Start(m, Some(NewObserver(T))), Start(m, None), T, 0);
  }

  /** The default target (size_t(-1)) is never reached: the observer only counts. */
  lemma InverseNoTarget(m: Matrix)
    requires Wide(m)
    ensures var r1 := InverseRun(m, Some(NewObserver(NO_TARGET)));
            var r2 := InverseRun(m, None);
            r1.flow == r2.flow && r1.s.m == r2.s.m && r1.s.trace == r2.s.trace
  {
    InverseRunCut(m, NO_TARGET);
    InverseRunBound(m, None);
    CutDef(InverseRun(m, Some(NewObserver(NO_TARGET))), InverseRun(m, None), NO_TARGET);
  }

  // ---------------------------------------------------------------------
  // op_inverse
  // ---------------------------------------------------------------------

  /** InverseCtx: the input and the number of ops of the full run. */
  datatype InverseCtx = InverseCtx(input: Matrix, opCount: nat)

  /** sizeof(InverseCtx) and alignof(InverseCtx) on an LP64 host: a 16-byte view and a size_t. */
  const INVERSE_CTX_SIZE: nat := 24
  const INVERSE_CTX_ALIGN: nat := 8

  /** What op_inverse leaves: the error, the out view, the arenas and the explanation context. */
  datatype InverseOut = InverseOut(err: Error, out: Matrix, scratch: Arena, persist: Option<Arena>, ctx: Option<InverseCtx>)

  /**
   * op_inverse(a, scratch, out, expl, opts): NotSquare, then
   * DimensionMismatch unless out is n x n, both before anything is touched;
   * then the scratch arena is cleared, [A | I] is built in it and reduced
   * with an observer whose target is never reached. An error there
   * (Singular included) is reported with a's shape and leaves out alone.
   * Otherwise out receives the right half, and then the explanation, if
   * asked for, is stored.
   */
  function OpInverse(a: Matrix, scratch: Arena, out: Matrix, opts: Options): (r: InverseOut)
    requires a.Wf() && out.Wf() && scratch.Valid() && OptionsValid(opts)
    ensures a.rows != a.cols ==> r == InverseOut(ErrA(NotSquare, a.Dim()), out, scratch, opts.persist, None)
    ensures a.rows == a.cols && !SameDim(out, a) ==>
              r == InverseOut(ErrAB(DimensionMismatch, a.Dim(), out.Dim()), out, scratch, opts.persist, None)
    ensures r.err.code in {Ok, NotSquare, DimensionMismatch, InvalidDimension, Overflow, Singular, Internal}
    ensures r.err.code in {NotSquare, DimensionMismatch, InvalidDimension, Singular} ==> r.out == out && r.ctx.None?
    ensures r.err.code == Ok ==> r.out.Wf() && SameDim(r.out, a) && r.persist.Some? == opts.persist.Some?
    ensures r.ctx.Some? ==> r.err.code == Ok && opts.enable && r.ctx.value.input == a
    ensures r.err.code == Ok && opts.enable ==> r.ctx.Some?
  {
    if a.rows != a.cols then InverseOut(ErrA(NotSquare, a.Dim()), out, scratch, opts.persist, None)
    else if out.rows != a.rows || out.cols != a.cols then
      InverseOut(ErrAB(DimensionMismatch, a.Dim(), out.Dim()), out, scratch, opts.persist, None)
    else
      var cleared := EnterScratch(scratch);
      match BuildAugmented(cleared, a)
      case Failure(e) => InverseOut(ErrA(e, a.Dim()), out, cleared, opts.persist, None)
      case Success(aug) =>
        var n := a.rows;
        var run := InverseRun(aug.m, Some(NewObserver(NO_TARGET)));
        if run.flow.Fail? then InverseOut(ErrA(run.flow.code, a.Dim()), out, aug.arena, opts.persist, None)
        else
          var written := Block(run.s.m, n, n);
          var p := Persist(opts, INVERSE_CTX_SIZE, INVERSE_CTX_ALIGN);
          if p.ec != Ok then InverseOut(ErrCode(p.ec), written, aug.arena, p.persist, None)
          else
            InverseOut(NoError, written, aug.arena, p.persist,
                       if opts.enable then Some(InverseCtx(a, |run.s.trace|)) else None)
  }

  /**
   * op_inverse in terms of the unobserved Gauss-Jordan run on [A | I] (for
   * a square a matching out, of order below 128, whose [A | I] fits in the
   * scratch arena): it reports Singular or Overflow exactly when that run
   * fails so; when it completes, the run has turned the left half into the
   * identity, out holds the right half, and a stored explanation counts the
   * run's ops.
   */
  lemma OpInverseCorrect(a: Matrix, scratch: Arena, out: Matrix, opts: Options)
    requires a.Wf() && out.Wf() && scratch.Valid() && OptionsValid(opts)
    requires a.rows == a.cols && SameDim(out, a) && a.rows < 128
    requires BuildAugmented(EnterScratch(scratch), a).Success?
    ensures var full := InverseRun(Augmented(a), None);
            var r := OpInverse(a, scratch, out, opts);
            (full.flow.Fail? ==> r.err == ErrA(full.flow.code, a.Dim()) && r.out == out) &&
            (full.flow == Go ==>
               Block(full.s.m, a.rows, 0) == Identity(a.rows) &&
               Replay(Augmented(a), full.s.trace) == Written(full.s.m, Ok) &&
               r.out == Block(full.s.m, a.rows, a.rows) &&
               (r.ctx.Some? ==> r.ctx.value.opCount == |full.s.trace|))
  {
    InverseNoTarget(Augmented(a));
    InverseRunIdentity(a);
  }

  // ---------------------------------------------------------------------
  // The explanation
  // ---------------------------------------------------------------------

  /** inverse_step_count: [A | I], then one step per op. */
  function InverseStepCount(ctx: InverseCtx): (n: nat)
    ensures n >= 1 && n - 1 == ctx.opCount
  {
    ctx.opCount + 1
  }

  /** [L | R] of the augmented working matrix, as display LaTeX. */
  function AugmentedDisplay(m: Matrix, n: nat, cap: nat): (e: Emitted)
    requires m.Wf() && n <= m.rows && 2 * n <= m.cols
    ensures e == Latex.WriteAugmentedDisplay(Block(m, n, 0), Block(m, n, n), cap)
  {
    Latex.WriteAugmentedDisplay(Block(m, n, 0), Block(m, n, n), cap)
  }

  /**
   * inverse_render_step: Internal without a scratch arena; both buffers
   * are emptied; StepOutOfRange from step_count on; then [A | I] is rebuilt
   * in scratch. Step 0 shows it. Step k reruns inverse_apply with an
   * observer stopping after k ops (a run that ends with fewer is
   * StepOutOfRange), captions the k-th op when there is a caption buffer,
   * and shows the augmented matrix at that point.
   */
  function InverseRender(ctx: InverseCtx, index: nat, out: Buffers): (r: Rendered)
    requires ctx.input.Wf() && BuffersValid(out)
    ensures out.scratch.None? ==> r == Nothing(Internal)
    ensures out.scratch.Some? && index >= InverseStepCount(ctx) ==> r == Nothing(StepOutOfRange)
    ensures r.caption != [] ==> index > 0 && out.caption.Some?
  {
    if out.scratch.None? then Nothing(Internal)
    else if index >= ctx.opCount + 1 then Nothing(StepOutOfRange)
    else
      match BuildAugmented(out.scratch.value, ctx.input)
      case Failure(e) => Nothing(e)
      case Success(aug) =>
        var n := ctx.input.rows;
        if index == 0 then WithLatex([], AugmentedDisplay(aug.m, n, out.latexCap))
        else
          var run := InverseRun(aug.m, Some(NewObserver(index)));
          if run.flow.Fail? then Nothing(run.flow.code)
          else if |run.s.trace| < index then Nothing(StepOutOfRange)
          else
            var last := run.s.obs.value.lastOp;
            assert last == run.s.trace[|run.s.trace| - 1];
            assert last.FitsIn(aug.m);
            match out.caption
            case None => WithLatex([], AugmentedDisplay(run.s.m, n, out.latexCap))
            case Some(cap) =>
              var c := Captions.RowOpCaption(last, cap);
              if c.ec != Ok then Rendered(c.ec, c.w.text, [])
              else WithLatex(c.w.text, AugmentedDisplay(run.s.m, n, out.latexCap))
  }

  /** Step k >= 1 in terms of the observed run that stops after k ops. */
  lemma InverseRenderOf(a: Matrix, index: nat, out: Buffers, count: nat, run: Run)
    requires a.Wf() && a.rows == a.cols && a.rows < 128 && BuffersValid(out)
    requires out.scratch.Some? && BuildAugmented(out.scratch.value, a).Success?
    requires 1 <= index <= count
    requires run == InverseRun(Augmented(a), Some(NewObserver(index)))
    requires !run.flow.Fail? && |run.s.trace| >= index
    ensures run.s.trace[|run.s.trace| - 1].FitsIn(Augmented(a))
    ensures var r := InverseRender(InverseCtx(a, count), index, out);
            var last := run.s.trace[|run.s.trace| - 1];
            (out.caption.None? ==> r == WithLatex([], AugmentedDisplay(run.s.m, a.rows, out.latexCap))) &&
            (out.caption.Some? ==>
               var c := Captions.RowOpCaption(last, out.caption.value);
               r == (if c.ec != Ok then Rendered(c.ec, c.w.text, [])
                     else WithLatex(c.w.text, AugmentedDisplay(run.s.m, a.rows, out.latexCap))))
  {
  }

  /** Step 0 of the explanation shows [A | I]. */
  lemma InverseRenderFirst(a: Matrix, count: nat, out: Buffers)
    requires a.Wf() && a.rows == a.cols && a.rows < 128 && BuffersValid(out)
    requires out.scratch.Some? && BuildAugmented(out.scratch.value, a).Success?
    ensures InverseRender(InverseCtx(a, count), 0, out) ==
              WithLatex([], Latex.WriteAugmentedDisplay(a, Identity(a.rows), out.latexCap))
  {
    AugmentedHalves(a);
  }

  /**
   * Rendering step k of the explanation op_inverse stores for a completed
   * run (k from 1 to the op count; [A | I] fitting in scratch): the caption
   * is that of the run's k-th op and the LaTeX is the augmented matrix
   * obtained by replaying the run's first k ops on [A | I]; step 0 shows
   * [A | I] itself.
   */
  lemma InverseRenderStep(a: Matrix, index: nat, out: Buffers)
    requires a.Wf() && a.rows == a.cols && a.rows < 128 && BuffersValid(out)
    requires out.scratch.Some? && BuildAugmented(out.scratch.value, a).Success?
    ensures var full := InverseRun(Augmented(a), None);
            var ctx := InverseCtx(a, |full.s.trace|);
            var r := InverseRender(ctx, index, out);
            var n := a.rows;
            full.flow == Go && 1 <= index <= |full.s.trace| ==>
              AllFit(full.s.trace[..index], Augmented(a)) &&
              var work := Replay(Augmented(a), full.s.trace[..index]).m;
              Replay(Augmented(a), full.s.trace[..index]).ec == Ok &&
              (out.caption.None? ==> r == WithLatex([], AugmentedDisplay(work, n, out.latexCap))) &&
              (out.caption.Some? ==>
                 var c := Captions.RowOpCaption(full.s.trace[index - 1], out.caption.value);
                 r == (if c.ec != Ok then Rendered(c.ec, c.w.text, [])
                       else WithLatex(c.w.text, AugmentedDisplay(work, n, out.latexCap))))
    ensures var full := InverseRun(Augmented(a), None);
            var r := InverseRender(InverseCtx(a, |full.s.trace|), 0, out);
            r == WithLatex([], Latex.WriteAugmentedDisplay(a, Identity(a.rows), out.latexCap))
  {
    var full := InverseRun(Augmented(a), None);
    if full.flow == Go && 1 <= index <= |full.s.trace| {
      InverseRenderAt(a, index, out, full);
    }
    InverseRenderFirst(a, |full.s.trace|, out);
  }

  /** Step k >= 1 of a completed run, via the observed run cut from it. */
  lemma InverseRenderAt(a: Matrix, index: nat, out: Buffers, full: Run)
    requires a.Wf() && a.rows == a.cols && a.rows < 128 && BuffersValid(out)
    requires out.scratch.Some? && BuildAugmented(out.scratch.value, a).Success?
    requires full == InverseRun(Augmented(a), None) && full.flow == Go && 1 <= index <= |full.s.trace|
    ensures AllFit(full.s.trace[..index], Augmented(a))
    ensures var work := Replay(Augmented(a), full.s.trace[..index]).m;
            var r := InverseRender(InverseCtx(a, |full.s.trace|), index, out);
            Replay(Augmented(a), full.s.trace[..index]).ec == Ok &&
            (out.caption.None? ==> r == WithLatex([], AugmentedDisplay(work, a.rows, out.latexCap))) &&
            (out.caption.Some? ==>
               var c := Captions.RowOpCaption(full.s.trace[index - 1], out.caption.value);
               r == (if c.ec != Ok then Rendered(c.ec, c.w.text, [])
                     else WithLatex(c.w.text, AugmentedDisplay(work, a.rows, out.latexCap))))
  {
    var m := Augmented(a);
    AugmentedHalves(a);
    var run := InverseRun(m, Some(NewObserver(index)));
    InverseRunCut(m, index);
    CutDef(run, full, index);
    assert run.s.trace == full.s.trace[..index];
    assert run.s.trace[index - 1] == full.s.trace[index - 1];
    InverseRenderOf(a, index, out, |full.s.trace|, run);
  }
}
