/**
 * The fundamental subspaces read off a reduced row echelon form
 * (spaces.cpp): the pivot information of an RREF on its first var_cols
 * columns, and bases of the column space (pivot columns of A), the row
 * space (the first rank rows of the RREF) and the null space (one vector
 * per free column).
 */
module Spaces {

  import opened Errors
  import opened Int64
  import opened Rationals
  import opened Matrices
  import opened Arenas

  /** kNoPivot: a free column's pivot row, and find_pivot_col's "none". */
  const NO_PIVOT: nat := 0xFF

  /**
   * SpaceInfo: rank, nullity, the pivot-column bit mask (bit c for column
   * c), the pivot columns in the order their rows were met (the entries
   * from rank on stay 0) and, for each of the kMaxCols columns, its pivot
   * row or NO_PIVOT.
   */
  datatype SpaceInfo = SpaceInfo(rank: nat, nullity: nat, mask: bv32, pivotCols: seq<nat>, rowFor: seq<nat>)

  /** The shape of the two arrays, and a rank that indexes inside them. */
  predicate InfoWf(info: SpaceInfo) {
    |info.pivotCols| == MAX_COLS && |info.rowFor| == MAX_COLS && info.rank <= MAX_COLS
  }

  // ---------------------------------------------------------------------
  // Leading entries
  // ---------------------------------------------------------------------

  /** The first n entries of the row are zero. */
  predicate ZeroOn(row: seq<Rational>, n: nat)
    requires n <= |row|
  {
    forall c :: 0 <= c < n ==> row[c].IsZero()
  }

  /** Column c holds the row's first nonzero entry among its first n. */
  predicate IsLead(row: seq<Rational>, n: nat, c: nat)
    requires n <= |row|
  {
    c < n && !row[c].IsZero() && ZeroOn(row, c)
  }

  /** A row has at most one leading entry. */
  lemma LeadUnique(row: seq<Rational>, n: nat, c: nat, d: nat)
    requires n <= |row| && IsLead(row, n, c) && IsLead(row, n, d)
    ensures c == d
  {
  }

  /** find_pivot_col: the leading column among the first n, or NO_PIVOT for a row zero there. */
  function FindPivotCol(row: seq<Rational>, n: nat): (c: nat)
    requires n <= |row| && n <= MAX_COLS
    ensures c == NO_PIVOT <==> ZeroOn(row, n)
    ensures c != NO_PIVOT ==> IsLead(row, n, c)
  {
    PivotFrom(row, n, 0)
  }

  /** The scan of find_pivot_col from column c on; the columns before c are zero. */
  function PivotFrom(row: seq<Rational>, n: nat, c: nat): (r: nat)
    requires c <= n <= |row| && n <= MAX_COLS && ZeroOn(row, c)
    ensures r == NO_PIVOT <==> ZeroOn(row, n)
    ensures r != NO_PIVOT ==> IsLead(row, n, r)
    decreases n - c
  {
    if c == n then NO_PIVOT
    else if !row[c].IsZero() then c
    else PivotFrom(row, n, c + 1)
  }

  // ---------------------------------------------------------------------
  // The pivot mask
  // ---------------------------------------------------------------------

  /** Bit c of a 32-bit mask, c as a shift amount. */
  predicate BitAt(m: bv32, c: bv5) {
    (m >> c) & 1 == 1
  }

  /** `1u << c` as a shift amount. */
  function FlagAt(c: bv5): bv32 {
    (1 as bv32) << c
  }

  /** Or-ing in flag d sets bit d and keeps the others (bit-vector form). */
  lemma FlagBitAt(m: bv32, d: bv5, c: bv5)
    ensures BitAt(m | FlagAt(d), c) <==> BitAt(m, c) || c == d
  {
  }

  /** Bit c of a 32-bit mask. */
  predicate Bit(m: bv32, c: nat)
    requires c < 32
  {
    BitAt(m, c as bv5)
  }

  /** `1u << c` for the columns a uint32 can flag, nothing for the others. */
  function Flag(c: nat): bv32
  {
    if c < 32 then FlagAt(c as bv5) else 0
  }

  /** Or-ing in the flag of d sets bit d and keeps the others. */
  lemma FlagBit(m: bv32, d: nat, c: nat)
    requires c < 32
    ensures Bit(m | Flag(d), c) <==> Bit(m, c) || c == d
  {
    if d < 32 {
      FlagBitAt(m, d as bv5, c as bv5);
      assert (c as bv5) == (d as bv5) <==> c == d;
    } else {
      assert m | Flag(d) == m;
    }
  }

  /**
   * pivot_mask_from_cols: the or of the flags of the first `rank` pivot
   * columns. Bit c is set exactly when c is one of them.
   */
  function PivotMask(cols: seq<nat>, rank: nat): (m: bv32)
    requires rank <= |cols|
    ensures forall c: nat :: c < 32 ==> (Bit(m, c) <==> c in cols[..rank])
  {
    if rank == 0 then 0
    else
      var prev := PivotMask(cols, rank - 1);
      assert cols[..rank] == cols[..rank - 1] + [cols[rank - 1]];
      forall c: nat | c < 32
        ensures Bit(prev | Flag(cols[rank - 1]), c) <==> c in cols[..rank]
      {
        FlagBit(prev, cols[rank - 1], c);
      }
      prev | Flag(cols[rank - 1])
  }

  // ---------------------------------------------------------------------
  // space_info_from_rref
  // ---------------------------------------------------------------------

  /** How many of the first n columns have a pivot row. */
  function Claimed(rowFor: seq<nat>, n: nat): (k: nat)
    requires n <= |rowFor|
  {
    if n == 0 then 0 else Claimed(rowFor, n - 1) + (if rowFor[n - 1] != NO_PIVOT then 1 else 0)
  }

  /** At most n of n columns are claimed, and all n only when every one is. */
  lemma {:induction false} ClaimedBound(rowFor: seq<nat>, n: nat)
    requires n <= |rowFor|
    ensures Claimed(rowFor, n) <= n
    ensures Claimed(rowFor, n) == n ==> forall c :: 0 <= c < n ==> rowFor[c] != NO_PIVOT
  {
    if n > 0 {
      ClaimedBound(rowFor, n - 1);
    }
  }

  /** No column is claimed before the scan. */
  lemma {:induction false} ClaimedNone(rowFor: seq<nat>, n: nat)
    requires n <= |rowFor| && forall c :: 0 <= c < |rowFor| ==> rowFor[c] == NO_PIVOT
    ensures Claimed(rowFor, n) == 0
  {
    if n > 0 {
      ClaimedNone(rowFor, n - 1);
    }
  }

  /** Claiming a free column among the first n adds one. */
  lemma {:induction false} ClaimOne(rowFor: seq<nat>, pc: nat, v: nat, n: nat)
    requires pc < |rowFor| && n <= |rowFor| && rowFor[pc] == NO_PIVOT && v != NO_PIVOT
    ensures Claimed(rowFor[pc := v], n) == Claimed(rowFor, n) + (if pc < n then 1 else 0)
  {
    if n > 0 {
      ClaimOne(rowFor, pc, v, n - 1);
    }
  }

  /**
   * The pivot columns listed so far: each is one of the first n columns and
   * has a pivot row, every claimed column among the first n is listed, and
   * their pivot rows increase along the list (so the list has no repeats).
   */
  predicate Listed(pivotCols: seq<nat>, rank: nat, rowFor: seq<nat>, n: nat)
    requires rank <= |pivotCols| && n <= |rowFor|
  {
    (forall k :: 0 <= k < rank ==> pivotCols[k] < n && rowFor[pivotCols[k]] != NO_PIVOT) &&
    (forall c :: 0 <= c < n && rowFor[c] != NO_PIVOT ==> c in pivotCols[..rank]) &&
    (forall k, l :: 0 <= k < l < rank ==> rowFor[pivotCols[k]] < rowFor[pivotCols[l]])
  }

  /**
   * Every claimed column c among the first n has as pivot row the first
   * row, before `upto`, whose leading entry is in column c.
   */
  predicate Claims(m: Matrix, n: nat, rowFor: seq<nat>, upto: nat)
    requires m.Wf() && n <= m.cols && n <= |rowFor|
  {
    forall c :: 0 <= c < n && rowFor[c] != NO_PIVOT ==>
      rowFor[c] < upto && rowFor[c] < m.rows && IsLead(m.cells[rowFor[c]], n, c) &&
      forall r :: 0 <= r < rowFor[c] ==> !IsLead(m.cells[r], n, c)
  }

  /** Every row before `upto` with a leading entry among the first n columns has its column claimed. */
  predicate Complete(m: Matrix, n: nat, rowFor: seq<nat>, upto: nat)
    requires m.Wf() && n <= m.cols && n <= |rowFor| && upto <= m.rows
  {
    forall r, c :: 0 <= r < upto && 0 <= c < n && IsLead(m.cells[r], n, c) ==> rowFor[c] != NO_PIVOT
  }

  /** The columns from n to kMaxCols have no pivot; the list is 0 after its rank entries. */
  predicate Unused(pivotCols: seq<nat>, rank: nat, rowFor: seq<nat>, n: nat)
    requires |pivotCols| == MAX_COLS == |rowFor|
  {
    (forall c :: n <= c < MAX_COLS ==> rowFor[c] == NO_PIVOT) &&
    (forall k :: rank <= k < MAX_COLS ==> pivotCols[k] == 0)
  }

  /**
   * info is what space_info_from_rref reports for m and var_cols n: the
   * pivot columns are exactly the columns among the first n that lead some
   * row, each with the first such row; they are listed by increasing pivot
   * row; rank counts them, nullity is n - rank, and the mask has bit c set
   * exactly for them.
   */
  predicate Describes(m: Matrix, n: nat, info: SpaceInfo)
    requires m.Wf()
  {
    InfoWf(info) && n <= m.cols && n <= MAX_COLS && info.rank <= n && info.nullity == n - info.rank &&
    info.rank == Claimed(info.rowFor, n) &&
    Unused(info.pivotCols, info.rank, info.rowFor, n) &&
    Listed(info.pivotCols, info.rank, info.rowFor, n) &&
    Claims(m, n, info.rowFor, m.rows) && Complete(m, n, info.rowFor, m.rows) &&
    (forall c: nat :: c < 32 ==> (Bit(info.mask, c) <==> c < n && info.rowFor[c] != NO_PIVOT))
  }

  /**
   * space_info_from_rref(rref, var_cols): InvalidDimension when var_cols
   * exceeds the matrix's columns or kMaxCols; otherwise the rows are
   * scanned top to bottom, a row's leading column among the first var_cols
   * is claimed unless it has no leading entry there or the column is
   * already claimed, and the scan stops once var_cols columns are claimed.
   */
  method InfoFromRref(m: Matrix, n: nat) returns (r: Result<SpaceInfo>)
    requires m.Wf() && n < 256
    ensures n > m.cols || n > MAX_COLS ==> r == Failure(InvalidDimension)
    ensures n <= m.cols && n <= MAX_COLS ==> r.Success? && Describes(m, n, r.value)
  {
    if n > m.cols || n > MAX_COLS {
      return Failure(InvalidDimension);
    }
    var rowFor: seq<nat> := seq(MAX_COLS, _ => NO_PIVOT);
    var pivotCols: seq<nat> := seq(MAX_COLS, _ => 0);
    var rank := 0;
    var row := 0;
    ClaimedNone(rowFor, n);
    while row < m.rows
      invariant row <= m.rows && Scanned(m, n, pivotCols, rank, rowFor, row)
    {
      var pc := FindPivotCol(m.cells[row], n);
      if pc != NO_PIVOT && rowFor[pc] == NO_PIVOT {
        ScanClaim(m, n, pivotCols, rank, rowFor, row, pc);
        rowFor := rowFor[pc := row];
        pivotCols := pivotCols[rank := pc];
        rank := rank + 1;
        if rank >= n {
          row := m.rows;
          break;
        }
      } else {
        SkipRow(m, n, pivotCols, rank, rowFor, row, pc);
      }
      row := row + 1;
    }
    var mask := PivotMask(pivotCols, rank);
    MaskBits(pivotCols, rank, rowFor, n, mask);
    return Success(SpaceInfo(rank, n - rank, mask, pivotCols, rowFor));
  }

  /** The loop state of space_info_from_rref after scanning the rows before `row`. */
  predicate Scanned(m: Matrix, n: nat, pivotCols: seq<nat>, rank: nat, rowFor: seq<nat>, row: nat)
    requires m.Wf() && n <= m.cols && n <= MAX_COLS && row <= m.rows
  {
    |rowFor| == MAX_COLS && |pivotCols| == MAX_COLS &&
    rank <= n && rank == Claimed(rowFor, n) &&
    Unused(pivotCols, rank, rowFor, n) && Listed(pivotCols, rank, rowFor, n) &&
    Claims(m, n, rowFor, row) && Complete(m, n, rowFor, row)
  }

  /**
   * Claiming row `row`'s leading column advances the scan by one row; once
   * all n columns are claimed the scan may as well be over.
   */
  lemma ScanClaim(m: Matrix, n: nat, pivotCols: seq<nat>, rank: nat, rowFor: seq<nat>, row: nat, pc: nat)
    requires m.Wf() && n <= m.cols && n <= MAX_COLS && row < m.rows
    requires Scanned(m, n, pivotCols, rank, rowFor, row)
    requires pc == FindPivotCol(m.cells[row], n) && pc != NO_PIVOT && rowFor[pc] == NO_PIVOT
    ensures rank < n
    ensures Scanned(m, n, pivotCols[rank := pc], rank + 1, rowFor[pc := row], row + 1)
    ensures rank + 1 >= n ==> Scanned(m, n, pivotCols[rank := pc], rank + 1, rowFor[pc := row], m.rows)
  {
    ClaimedBound(rowFor, n);
    ClaimOne(rowFor, pc, row, n);
    ClaimRow(m, n, rowFor, row, pc);
    ListOne(pivotCols, rank, rowFor, n, pc, row);
    if rank + 1 >= n {
      ClaimedBound(rowFor[pc := row], n);
      AllClaimed(m, n, rowFor[pc := row], row + 1);
    }
  }

  /** Claiming the leading column of row `row` keeps Claims and Complete, one row further. */
  lemma ClaimRow(m: Matrix, n: nat, rowFor: seq<nat>, row: nat, pc: nat)
    requires m.Wf() && n <= m.cols && n <= MAX_COLS && |rowFor| == MAX_COLS && row < m.rows
    requires Claims(m, n, rowFor, row) && Complete(m, n, rowFor, row)
    requires pc == FindPivotCol(m.cells[row], n) && pc != NO_PIVOT && rowFor[pc] == NO_PIVOT
    ensures Claims(m, n, rowFor[pc := row], row + 1) && Complete(m, n, rowFor[pc := row], row + 1)
  {
    var rowFor' := rowFor[pc := row];
    forall r | 0 <= r < row
      ensures !IsLead(m.cells[r], n, pc)
    {
    }
    forall c | 0 <= c < n && IsLead(m.cells[row], n, c)
      ensures rowFor'[c] != NO_PIVOT
    {
      LeadUnique(m.cells[row], n, c, pc);
    }
  }

  /** A row without a leading entry, or whose column is taken, keeps Claims and Complete one row further. */
  lemma SkipRow(m: Matrix, n: nat, pivotCols: seq<nat>, rank: nat, rowFor: seq<nat>, row: nat, pc: nat)
    requires m.Wf() && n <= m.cols && n <= MAX_COLS && row < m.rows
    requires Scanned(m, n, pivotCols, rank, rowFor, row)
    requires pc == FindPivotCol(m.cells[row], n) && (pc == NO_PIVOT || rowFor[pc] != NO_PIVOT)
    ensures Scanned(m, n, pivotCols, rank, rowFor, row + 1)
  {
    forall c | 0 <= c < n && IsLead(m.cells[row], n, c)
      ensures rowFor[c] != NO_PIVOT
    {
      LeadUnique(m.cells[row], n, c, pc);
    }
  }

  /** Appending the newly claimed column keeps the list in pivot-row order. */
  lemma ListOne(pivotCols: seq<nat>, rank: nat, rowFor: seq<nat>, n: nat, pc: nat, row: nat)
    requires |pivotCols| == MAX_COLS == |rowFor| && rank < MAX_COLS && n <= MAX_COLS
    requires Listed(pivotCols, rank, rowFor, n) && Unused(pivotCols, rank, rowFor, n)
    requires pc < n && rowFor[pc] == NO_PIVOT && row != NO_PIVOT
    requires forall c :: 0 <= c < n && rowFor[c] != NO_PIVOT ==> rowFor[c] < row
    ensures Listed(pivotCols[rank := pc], rank + 1, rowFor[pc := row], n)
    ensures Unused(pivotCols[rank := pc], rank + 1, rowFor[pc := row], n)
  {
    var cols' := pivotCols[rank := pc];
    var rowFor' := rowFor[pc := row];
    assert cols'[..rank + 1] == pivotCols[..rank] + [pc];
    forall k | 0 <= k < rank
      ensures pivotCols[k] != pc && rowFor'[cols'[k]] == rowFor[pivotCols[k]] < row
    {
    }
  }

  /** Once all n columns are claimed, every row's leading column is. */
  lemma AllClaimed(m: Matrix, n: nat, rowFor: seq<nat>, upto: nat)
    requires m.Wf() && n <= m.cols && n <= |rowFor| && upto <= m.rows
    requires Claims(m, n, rowFor, upto)
    requires forall c :: 0 <= c < n ==> rowFor[c] != NO_PIVOT
    ensures Claims(m, n, rowFor, m.rows) && Complete(m, n, rowFor, m.rows)
  {
  }

  /** The mask of the listed columns has bit c set exactly for the claimed columns among the first n. */
  lemma MaskBits(pivotCols: seq<nat>, rank: nat, rowFor: seq<nat>, n: nat, mask: bv32)
    requires |pivotCols| == MAX_COLS == |rowFor| && rank <= MAX_COLS && n <= MAX_COLS
    requires Listed(pivotCols, rank, rowFor, n) && mask == PivotMask(pivotCols, rank)
    ensures forall c: nat :: c < 32 ==> (Bit(mask, c) <==> c < n && rowFor[c] != NO_PIVOT)
  {
    forall c: nat | c < 32 && c in pivotCols[..rank]
      ensures c < n
    {
      var k :| 0 <= k < rank && pivotCols[k] == c;
    }
  }

  // ---------------------------------------------------------------------
  // Bases
  // ---------------------------------------------------------------------

  /** A basis with k vectors takes k columns (or rows); an empty one still takes one, of zeros. */
  function Width(k: nat): (w: nat)
    ensures w >= 1 && (k > 0 ==> w == k)
  {
    if k == 0 then 1 else k
  }

  /** Column k of b becomes column pc of a; everything else stays. */
  method CopyColumn(b: Matrix, k: nat, a: Matrix, pc: nat) returns (r: Matrix)
    requires b.Wf() && a.Wf() && b.rows == a.rows && k < b.cols && pc < a.cols
    ensures r.Wf() && SameDim(r, b)
    ensures forall i :: 0 <= i < a.rows ==> r.cells[i][k] == a.cells[i][pc]
    ensures forall i, j :: 0 <= i < b.rows && 0 <= j < b.cols && j != k ==> r.cells[i][j] == b.cells[i][j]
  {
    r := b;
    for i := 0 to a.rows
      invariant r.Wf() && SameDim(r, b)
      invariant forall i' :: 0 <= i' < i ==> r.cells[i'][k] == a.cells[i'][pc]
      invariant forall i', j :: 0 <= i' < b.rows && 0 <= j < b.cols && j != k ==> r.cells[i'][j] == b.cells[i'][j]
    {
      r := r.Set(i, k, a.At(i, pc));
    }
  }

  /**
   * space_col_basis(a, info, arena): a.rows x max(rank, 1) from the arena
   * (its failure is returned as is); with rank 0 that single column stays
   * zero, otherwise column k is a's column pivot_cols[k], and a pivot
   * column outside a is InvalidDimension (the arena keeps the block).
   */
  method ColBasis(a: Matrix, info: SpaceInfo, arena: Arena) returns (r: Result<Matrix>, after: Arena)
    requires a.Wf() && arena.Valid() && InfoWf(info)
    ensures var al := Alloc(arena, a.rows, Width(info.rank), false);
            al.Failure? ==> r == Failure(al.code) && after == arena
    ensures var al := Alloc(arena, a.rows, Width(info.rank), false);
            al.Success? ==> (after == al.value.arena &&
              (r.Success? <==> forall k :: 0 <= k < info.rank ==> info.pivotCols[k] < a.cols) &&
              (r.Failure? ==> r.code == InvalidDimension))
    ensures r.Success? && info.rank == 0 ==> r.value == Zeros(a.rows, 1)
    ensures r.Success? && info.rank > 0 ==> r.value.Wf() && r.value.rows == a.rows && r.value.cols == info.rank
    ensures r.Success? ==> forall i, k :: 0 <= i < a.rows && 0 <= k < info.rank ==>
              r.value.cells[i][k] == a.cells[i][info.pivotCols[k]]
  {
    var al := Alloc(arena, a.rows, Width(info.rank), false);
    if al.Failure? {
      return Failure(al.code), arena;
    }
    after := al.value.arena;
    var b := FillZero(al.value.m);
    var k := 0;
    while k < info.rank
      invariant k <= info.rank && b.Wf() && b.rows == a.rows && b.cols == Width(info.rank)
      invariant info.rank == 0 ==> b == Zeros(a.rows, 1)
      invariant forall j :: 0 <= j < k ==> info.pivotCols[j] < a.cols
      invariant forall i, j :: 0 <= i < a.rows && 0 <= j < k ==> b.cells[i][j] == a.cells[i][info.pivotCols[j]]
    {
      var pc := info.pivotCols[k];
      if pc >= a.cols {
        return Failure(InvalidDimension), after;
      }
      b := CopyColumn(b, k, a, pc);
      k := k + 1;
    }
    return Success(b), after;
  }

  /** Row i of b becomes the first n entries of row i of m; everything else stays. */
  method CopyRow(b: Matrix, i: nat, m: Matrix, n: nat) returns (r: Matrix)
    requires b.Wf() && m.Wf() && i < b.rows && i < m.rows && n == b.cols && n <= m.cols
    ensures r.Wf() && SameDim(r, b)
    ensures forall c :: 0 <= c < n ==> r.cells[i][c] == m.cells[i][c]
    ensures forall i' :: 0 <= i' < b.rows && i' != i ==> r.cells[i'] == b.cells[i']
  {
    r := b;
    for c := 0 to n
      invariant r.Wf() && SameDim(r, b)
      invariant forall c' :: 0 <= c' < c ==> r.cells[i][c'] == m.cells[i][c']
      invariant forall i' :: 0 <= i' < b.rows && i' != i ==> r.cells[i'] == b.cells[i']
    {
      r := r.Set(i, c, m.At(i, c));
    }
  }

  /**
   * space_row_basis(rref, var_cols, info, arena): InvalidDimension when
   * var_cols exceeds the matrix; otherwise max(rank, 1) x var_cols from the
   * arena (its failure is returned as is); with rank 0 that single row
   * stays zero, otherwise row i is the first var_cols entries of the
   * RREF's row i. The source reads rows 0 .. rank-1 without a check, so
   * rank must not exceed the RREF's rows.
   */
  method RowBasis(rref: Matrix, n: nat, info: SpaceInfo, arena: Arena) returns (r: Result<Matrix>, after: Arena)
    requires rref.Wf() && arena.Valid() && InfoWf(info) && n < 256 && info.rank <= rref.rows
    ensures n > rref.cols ==> r == Failure(InvalidDimension) && after == arena
    ensures var al := Alloc(arena, Width(info.rank), n, false);
            n <= rref.cols ==>
              (al.Failure? ==> r == Failure(al.code) && after == arena) &&
              (al.Success? ==> r.Success? && after == al.value.arena)
    ensures r.Success? && info.rank == 0 ==> r.value == Zeros(1, n)
    ensures r.Success? && info.rank > 0 ==> r.value.Wf() && r.value.rows == info.rank && r.value.cols == n
    ensures r.Success? ==> n <= rref.cols && forall i, c :: 0 <= i < info.rank && 0 <= c < n ==>
              r.value.cells[i][c] == rref.cells[i][c]
  {
    if n > rref.cols {
      return Failure(InvalidDimension), arena;
    }
    var al := Alloc(arena, Width(info.rank), n, false);
    if al.Failure? {
      return Failure(al.code), arena;
    }
    var b := FillZero(al.value.m);
    for i := 0 to info.rank
      invariant b.Wf() && b.rows == Width(info.rank) && b.cols == n
      invariant info.rank == 0 ==> b == Zeros(1, n)
      invariant forall i', c :: 0 <= i' < i && 0 <= c < n ==> b.cells[i'][c] == rref.cells[i'][c]
    {
      b := CopyRow(b, i, rref, n);
    }
    return Success(b), al.value.arena;
  }

  // ---------------------------------------------------------------------
  // The null space
  // ---------------------------------------------------------------------

  /** The columns among the first n without a pivot row, in increasing order. */
  function FreeCols(rowFor: seq<nat>, n: nat): (free: seq<nat>)
    requires n <= |rowFor|
    ensures |free| == n - Claimed(rowFor, n)
    ensures forall k :: 0 <= k < |free| ==> free[k] < n && rowFor[free[k]] == NO_PIVOT
    ensures forall c :: 0 <= c < n && rowFor[c] == NO_PIVOT ==> c in free
    ensures forall k, l :: 0 <= k < l < |free| ==> free[k] < free[l]
  {
    if n == 0 then []
    else FreeCols(rowFor, n - 1) + (if rowFor[n - 1] == NO_PIVOT then [n - 1] else [])
  }

  /**
   * What space_null_basis relies on without checking: each of the first
   * rank pivot columns is one of the first n columns and its pivot row is
   * a row of the matrix.
   */
  predicate Consistent(m: Matrix, n: nat, info: SpaceInfo)
    requires n <= MAX_COLS
  {
    InfoWf(info) &&
    forall pi :: 0 <= pi < info.rank ==> info.pivotCols[pi] < n && info.rowFor[info.pivotCols[pi]] < m.rows
  }

  /** What space_info_from_rref reports is consistent. */
  lemma DescribesConsistent(m: Matrix, n: nat, info: SpaceInfo)
    requires m.Wf() && Describes(m, n, info)
    ensures Consistent(m, n, info)
  {
  }

  /** Negating the pivot rows' entries in free column fc, for the first `upto` pivots, does not overflow. */
  predicate NegOk(m: Matrix, n: nat, info: SpaceInfo, fc: nat, upto: nat)
    requires m.Wf() && n <= m.cols && n <= MAX_COLS && Consistent(m, n, info) && upto <= info.rank && fc < n
  {
    forall pi :: 0 <= pi < upto ==> m.cells[info.rowFor[info.pivotCols[pi]]][fc].num != MIN
  }

  /** ... for every free column. */
  predicate AllNegOk(m: Matrix, n: nat, info: SpaceInfo, free: seq<nat>)
    requires m.Wf() && n <= m.cols && n <= MAX_COLS && Consistent(m, n, info)
    requires forall k :: 0 <= k < |free| ==> free[k] < n
  {
    forall k :: 0 <= k < |free| ==> NegOk(m, n, info, free[k], info.rank)
  }

  /**
   * Entry c of the null-space vector of free column fc once the first
   * `upto` pivot columns are written: minus the pivot row's entry in
   * column fc at a pivot column, 1 at fc, 0 elsewhere.
   */
  function NullEntry(m: Matrix, n: nat, info: SpaceInfo, fc: nat, c: nat, upto: nat): (e: Rational)
    requires m.Wf() && n <= m.cols && n <= MAX_COLS && Consistent(m, n, info) && upto <= info.rank && fc < n
    requires NegOk(m, n, info, fc, upto)
    ensures e.Valid()
  {
    if c in info.pivotCols[..upto] then
      assert exists pi :: 0 <= pi < upto && info.pivotCols[pi] == c;
      Neg(m.cells[info.rowFor[c]][fc]).value
    else if c == fc then
      CoprimeOneZero();
      One
    else
      CoprimeOneZero();
      Zero
  }

  /**
   * One vector of the null basis: column k of b, zero on entry, gets 1 in
   * row fc and, for each pivot, minus the pivot row's entry in column fc
   * in the pivot column's row; a negation that overflows ends it.
   */
  method NullColumn(m: Matrix, n: nat, info: SpaceInfo, b: Matrix, k: nat, fc: nat) returns (r: Result<Matrix>)
    requires m.Wf() && n <= m.cols && n <= MAX_COLS && Consistent(m, n, info)
    requires b.Wf() && b.rows == n && k < b.cols && fc < n && info.rowFor[fc] == NO_PIVOT
    requires forall c :: 0 <= c < n ==> b.cells[c][k] == Zero
    ensures r.Success? <==> NegOk(m, n, info, fc, info.rank)
    ensures r.Failure? ==> r.code == Overflow
    ensures r.Success? ==> r.value.Wf() && SameDim(r.value, b)
    ensures r.Success? ==> forall c :: 0 <= c < n ==> r.value.cells[c][k] == NullEntry(m, n, info, fc, c, info.rank)
    ensures r.Success? ==> forall c, j :: 0 <= c < n && 0 <= j < b.cols && j != k ==> r.value.cells[c][j] == b.cells[c][j]
  {
    CoprimeOneZero();
    var v := b.Set(fc, k, One);
    var pi := 0;
    while pi < info.rank
      invariant pi <= info.rank && v.Wf() && SameDim(v, b) && NegOk(m, n, info, fc, pi)
      invariant forall c :: 0 <= c < n ==> v.cells[c][k] == NullEntry(m, n, info, fc, c, pi)
      invariant forall c, j :: 0 <= c < n && 0 <= j < b.cols && j != k ==> v.cells[c][j] == b.cells[c][j]
    {
      var pc := info.pivotCols[pi];
      var pr := info.rowFor[pc];
      var neg := Neg(m.At(pr, fc));
      if neg.Failure? {
        return Failure(neg.code);
      }
      assert info.pivotCols[..pi + 1] == info.pivotCols[..pi] + [pc];
      v := v.Set(pc, k, neg.value);
      pi := pi + 1;
    }
    return Success(v);
  }

  /** The columns b's first k columns hold the null vectors of the first k free columns, the rest are zero. */
  predicate NullColumnsDone(m: Matrix, n: nat, info: SpaceInfo, free: seq<nat>, b: Matrix, k: nat)
    requires m.Wf() && n <= m.cols && n <= MAX_COLS && Consistent(m, n, info)
    requires forall j :: 0 <= j < |free| ==> free[j] < n
    requires b.Wf() && b.rows == n && k <= |free| <= b.cols
    requires forall j :: 0 <= j < k ==> NegOk(m, n, info, free[j], info.rank)
  {
    (forall c, j :: 0 <= c < n && 0 <= j < k ==> b.cells[c][j] == NullEntry(m, n, info, free[j], c, info.rank)) &&
    (forall c, j :: 0 <= c < n && k <= j < b.cols ==> b.cells[c][j] == Zero)
  }

  /**
   * space_null_basis(rref, var_cols, info, arena): InvalidDimension when
   * var_cols exceeds the matrix or kMaxCols; otherwise the free columns
   * are listed, var_cols x max(free count, 1) comes from the arena (its
   * failure is returned as is), and column k is the null vector of the
   * k-th free column; an overflowing negation is returned, the arena
   * keeping the block. With no free column the single column stays zero.
   */
  method NullBasis(m: Matrix, n: nat, info: SpaceInfo, arena: Arena) returns (r: Result<Matrix>, after: Arena)
    requires m.Wf() && arena.Valid() && n < 256 && InfoWf(info)
    requires n <= m.cols && n <= MAX_COLS ==> Consistent(m, n, info)
    ensures n > m.cols || n > MAX_COLS ==> r == Failure(InvalidDimension) && after == arena
    ensures n <= m.cols && n <= MAX_COLS ==>
              var free := FreeCols(info.rowFor, n);
              var al := Alloc(arena, n, Width(|free|), false);
              (al.Failure? ==> r == Failure(al.code) && after == arena) &&
              (al.Success? ==> (after == al.value.arena &&
                 (r.Success? <==> AllNegOk(m, n, info, free)) && (r.Failure? ==> r.code == Overflow)))
    ensures r.Success? ==> n <= m.cols && n <= MAX_COLS && r.value.Wf() && r.value.rows == n
    ensures r.Success? && FreeCols(info.rowFor, n) == [] ==> r.value == Zeros(n, 1)
    ensures r.Success? && FreeCols(info.rowFor, n) != [] ==>
              var free := FreeCols(info.rowFor, n);
              r.value.cols == |free| && AllNegOk(m, n, info, free) &&
              forall c, k :: 0 <= c < n && 0 <= k < |free| ==>
                r.value.cells[c][k] == NullEntry(m, n, info, free[k], c, info.rank)
    ensures r.Success? && Describes(m, n, info) && PivotsCleared(m, n) ==>
              forall i, k :: 0 <= i < m.rows && 0 <= k < r.value.cols ==> ColDot(m, i, r.value, k, n) == 0.0
  {
    if n > m.cols || n > MAX_COLS {
      return Failure(InvalidDimension), arena;
    }
    var free := ListFree(info.rowFor, n);
    var al := Alloc(arena, n, Width(|free|), false);
    if al.Failure? {
      return Failure(al.code), arena;
    }
    after := al.value.arena;
    var b := FillZero(al.value.m);
    if |free| == 0 {
      forall i, k | 0 <= i < m.rows && 0 <= k < b.cols
        ensures ColDot(m, i, b, k, n) == 0.0
      {
        ZeroVectorSolves(m, i, b, k, n);
      }
      return Success(b), after;
    }
    r := NullColumns(m, n, info, free, b);
    if r.Success? && Describes(m, n, info) && PivotsCleared(m, n) {
      NullColumnsSolve(m, n, info, free, r.value);
    }
  }

  /** The free-column scan of space_null_basis. */
  method ListFree(rowFor: seq<nat>, n: nat) returns (free: seq<nat>)
    requires n <= |rowFor|
    ensures free == FreeCols(rowFor, n)
  {
    free := [];
    for c := 0 to n
      invariant free == FreeCols(rowFor, c)
    {
      if rowFor[c] == NO_PIVOT {
        free := free + [c];
      }
    }
  }

  /** The vector loop of space_null_basis, on the zero n x |free| block b. */
  method NullColumns(m: Matrix, n: nat, info: SpaceInfo, free: seq<nat>, b: Matrix) returns (r: Result<Matrix>)
    requires m.Wf() && n <= m.cols && n <= MAX_COLS && Consistent(m, n, info)
    requires forall j :: 0 <= j < |free| ==> free[j] < n && info.rowFor[free[j]] == NO_PIVOT
    requires |free| <= n && b == Zeros(n, |free|)
    ensures r.Success? <==> AllNegOk(m, n, info, free)
    ensures r.Failure? ==> r.code == Overflow
    ensures r.Success? ==> r.value.Wf() && r.value.rows == n && r.value.cols == |free|
    ensures r.Success? ==> forall c, k :: 0 <= c < n && 0 <= k < |free| ==>
              r.value.cells[c][k] == NullEntry(m, n, info, free[k], c, info.rank)
  {
    var v := b;
    for k := 0 to |free|
      invariant v.Wf() && v.rows == n && v.cols == |free|
      invariant forall j :: 0 <= j < k ==> NegOk(m, n, info, free[j], info.rank)
      invariant NullColumnsDone(m, n, info, free, v, k)
    {
      var col := NullColumn(m, n, info, v, k, free[k]);
      if col.Failure? {
        return Failure(col.code);
      }
      v := col.value;
    }
    return Success(v);
  }

  // ---------------------------------------------------------------------
  // Reduced row echelon form, and what the bases mean there
  // ---------------------------------------------------------------------

  /**
   * On its first n columns, every leading entry of m is 1 and is the only
   * nonzero entry of its column.
   */
  predicate PivotsCleared(m: Matrix, n: nat)
    requires m.Wf() && n <= m.cols
  {
    forall r, c :: 0 <= r < m.rows && 0 <= c < n && IsLead(m.cells[r], n, c) ==>
      m.cells[r][c].IsOne() && forall i :: 0 <= i < m.rows && i != r ==> m.cells[i][c].IsZero()
  }

  /**
   * On its first n columns, the rows of m that are zero come last and the
   * leading entries of the others move strictly right going down.
   */
  predicate Staircase(m: Matrix, n: nat)
    requires m.Wf() && n <= m.cols
  {
    (forall r1, r2 :: 0 <= r1 < r2 < m.rows && ZeroOn(m.cells[r1], n) ==> ZeroOn(m.cells[r2], n)) &&
    (forall r1, r2, c1, c2 :: 0 <= r1 < r2 < m.rows && 0 <= c1 < n && 0 <= c2 < n && IsLead(m.cells[r1], n, c1) && IsLead(m.cells[r2], n, c2) ==> c1 < c2)
  }

  /** m is in reduced row echelon form on its first n columns. */
  predicate Reduced(m: Matrix, n: nat)
    requires m.Wf() && n <= m.cols
  {
    PivotsCleared(m, n) && Staircase(m, n)
  }

  /** A row that is not zero on its first n entries has a leading entry there. */
  lemma {:induction false} LeadExists(row: seq<Rational>, n: nat) returns (c: nat)
    requires n <= |row| && !ZeroOn(row, n)
    ensures IsLead(row, n, c)
    decreases n
  {
    if ZeroOn(row, n - 1) {
      c := n - 1;
    } else {
      c := LeadExists(row, n - 1);
    }
  }

  /** Reduced form on all columns gives reduced form on every leading block of columns. */
  lemma ReducedPrefix(m: Matrix, n: nat)
    requires m.Wf() && n <= m.cols && Reduced(m, m.cols)
    ensures Reduced(m, n)
  {
    forall r1, r2 | 0 <= r1 < r2 < m.rows && ZeroOn(m.cells[r1], n)
      ensures ZeroOn(m.cells[r2], n)
    {
      if !ZeroOn(m.cells[r2], n) {
        var c2 := LeadExists(m.cells[r2], n);
        assert IsLead(m.cells[r2], m.cols, c2);
        assert !ZeroOn(m.cells[r2], m.cols);
        var c1 := LeadExists(m.cells[r1], m.cols);
      }
    }
    forall r, c | 0 <= r < m.rows && 0 <= c < n && IsLead(m.cells[r], n, c)
      ensures IsLead(m.cells[r], m.cols, c)
    {
    }
  }

  /** The products of row i of a with column k of b, over the first n entries. */
  ghost function Terms(a: Matrix, i: nat, b: Matrix, k: nat, n: nat): (s: seq<real>)
    requires a.Wf() && b.Wf() && i < a.rows && k < b.cols && n <= a.cols && n <= b.rows
    ensures |s| == n
  {
    if n == 0 then [] else Terms(a, i, b, k, n - 1) + [a.V(i, n - 1) * b.V(n - 1, k)]
  }

  /** Term c is the product of entry c of the row and entry c of the column. */
  lemma {:induction false} TermsAt(a: Matrix, i: nat, b: Matrix, k: nat, n: nat, c: nat)
    requires a.Wf() && b.Wf() && i < a.rows && k < b.cols && n <= a.cols && n <= b.rows && c < n
    ensures Terms(a, i, b, k, n)[c] == a.V(i, c) * b.V(c, k)
  {
    if c < n - 1 {
      TermsAt(a, i, b, k, n - 1, c);
    }
  }

  ghost function Sum(s: seq<real>): real {
    if |s| == 0 then 0.0 else Sum(s[..|s| - 1]) + s[|s| - 1]
  }

  /** Row i of a times column k of b, over the first n entries. */
  ghost function ColDot(a: Matrix, i: nat, b: Matrix, k: nat, n: nat): real
    requires a.Wf() && b.Wf() && i < a.rows && k < b.cols && n <= a.cols && n <= b.rows
  {
    Sum(Terms(a, i, b, k, n))
  }

  /** A sum whose terms vanish outside positions p and q is what it has there. */
  lemma {:induction false} SumTwo(s: seq<real>, p: nat, q: nat)
    requires p != q && forall c :: 0 <= c < |s| && c != p && c != q ==> s[c] == 0.0
    ensures Sum(s) == (if p < |s| then s[p] else 0.0) + (if q < |s| then s[q] else 0.0)
  {
    if |s| > 0 {
      SumTwo(s[..|s| - 1], p, q);
    }
  }

  /**
   * In an RREF described by info, a row leading in column c is that
   * column's pivot row, and c is among the listed pivot columns.
   */
  lemma LeadRow(m: Matrix, n: nat, info: SpaceInfo, r: nat, c: nat)
    requires m.Wf() && Describes(m, n, info) && PivotsCleared(m, n)
    requires r < m.rows && IsLead(m.cells[r], n, c)
    ensures info.rowFor[c] == r && c in info.pivotCols[..info.rank]
  {
    assert info.rowFor[c] != NO_PIVOT;
    var pr := info.rowFor[c];
    assert IsLead(m.cells[pr], n, c);
  }

  /**
   * Outside its leading column p and the free column fc, row i of an RREF
   * meets the null vector of fc in zeros: another pivot column is zero in
   * this row, another free column is zero in the vector.
   */
  lemma TermVanishes(m: Matrix, n: nat, info: SpaceInfo, fc: nat, v: Matrix, k: nat, i: nat, p: nat, c: nat)
    requires m.Wf() && Describes(m, n, info) && PivotsCleared(m, n) && Consistent(m, n, info)
    requires fc < n && info.rowFor[fc] == NO_PIVOT && NegOk(m, n, info, fc, info.rank)
    requires v.Wf() && v.rows == n && k < v.cols && i < m.rows && IsLead(m.cells[i], n, p)
    requires c < n && c != p && c != fc && v.cells[c][k] == NullEntry(m, n, info, fc, c, info.rank)
    ensures m.V(i, c) == 0.0 || v.V(c, k) == 0.0
  {
    if c in info.pivotCols[..info.rank] {
      var pr := info.rowFor[c];
      assert IsLead(m.cells[pr], n, c);
      ZeroOneByValue(m.cells[i][c]);
    } else {
      CoprimeOneZero();
      ZeroOneByValue(Zero);
    }
  }

  /**
   * The null vector of a free column solves the homogeneous system: in an
   * RREF, a zero row contributes nothing, and a row leading in pivot column
   * p meets 1 * (-entry at fc) at p, entry * 1 at fc, and zeros elsewhere.
   */
  lemma NullRowSolves(m: Matrix, n: nat, info: SpaceInfo, fc: nat, v: Matrix, k: nat, i: nat)
    requires m.Wf() && Describes(m, n, info) && PivotsCleared(m, n) && Consistent(m, n, info)
    requires fc < n && info.rowFor[fc] == NO_PIVOT && NegOk(m, n, info, fc, info.rank)
    requires v.Wf() && v.rows == n && k < v.cols && i < m.rows
    requires forall c :: 0 <= c < n ==> v.cells[c][k] == NullEntry(m, n, info, fc, c, info.rank)
    ensures ColDot(m, i, v, k, n) == 0.0
  {
    if ZeroOn(m.cells[i], n) {
      ZeroRowSolves(m, i, v, k, n);
    } else {
      var p := FindPivotCol(m.cells[i], n);
      LeadRow(m, n, info, i, p);
      LeadRowSolves(m, n, info, fc, v, k, i, p);
    }
  }

  /** A row that is zero on the first n columns meets any vector in 0. */
  lemma ZeroRowSolves(m: Matrix, i: nat, v: Matrix, k: nat, n: nat)
    requires m.Wf() && v.Wf() && i < m.rows && k < v.cols && n <= m.cols && n <= v.rows
    requires ZeroOn(m.cells[i], n)
    ensures ColDot(m, i, v, k, n) == 0.0
  {
    var s := Terms(m, i, v, k, n);
    forall c | 0 <= c < n
      ensures s[c] == 0.0
    {
      ZeroOneByValue(m.cells[i][c]);
      TermsAt(m, i, v, k, n, c);
      ZeroFactor(m.V(i, c), v.V(c, k), s[c]);
    }
    SumTwo(s, n, n + 1);
  }

  /** A row leading in pivot column p meets the null vector of fc in -(entry at fc) + entry at fc. */
  lemma LeadRowSolves(m: Matrix, n: nat, info: SpaceInfo, fc: nat, v: Matrix, k: nat, i: nat, p: nat)
    requires m.Wf() && Describes(m, n, info) && PivotsCleared(m, n) && Consistent(m, n, info)
    requires fc < n && info.rowFor[fc] == NO_PIVOT && NegOk(m, n, info, fc, info.rank)
    requires v.Wf() && v.rows == n && k < v.cols && i < m.rows && IsLead(m.cells[i], n, p)
    requires info.rowFor[p] == i && p in info.pivotCols[..info.rank]
    requires forall c :: 0 <= c < n ==> v.cells[c][k] == NullEntry(m, n, info, fc, c, info.rank)
    ensures ColDot(m, i, v, k, n) == 0.0
  {
    PivotTerms(m, n, info, fc, v, k, i, p);
    forall c | 0 <= c < n && c != p && c != fc
      ensures m.V(i, c) == 0.0 || v.V(c, k) == 0.0
    {
      TermVanishes(m, n, info, fc, v, k, i, p, c);
    }
    DotTwo(m, i, v, k, n, p, fc);
  }

  /** A row times a column whose products vanish outside p and q is the sum of those two products. */
  lemma DotTwo(a: Matrix, i: nat, b: Matrix, k: nat, n: nat, p: nat, q: nat)
    requires a.Wf() && b.Wf() && i < a.rows && k < b.cols && n <= a.cols && n <= b.rows
    requires p < n && q < n && p != q
    requires forall c :: 0 <= c < n && c != p && c != q ==> a.V(i, c) == 0.0 || b.V(c, k) == 0.0
    ensures ColDot(a, i, b, k, n) == a.V(i, p) * b.V(p, k) + a.V(i, q) * b.V(q, k)
  {
    var s := Terms(a, i, b, k, n);
    forall c | 0 <= c < n && c != p && c != q
      ensures s[c] == 0.0
    {
      TermsAt(a, i, b, k, n, c);
      ZeroFactor(a.V(i, c), b.V(c, k), s[c]);
    }
    SumTwo(s, p, q);
    TermsAt(a, i, b, k, n, p);
    TermsAt(a, i, b, k, n, q);
  }

  /** A product with a zero factor is zero. */
  lemma ZeroFactor(x: real, y: real, z: real)
    requires z == x * y && (x == 0.0 || y == 0.0)
    ensures z == 0.0
  {
  }

  /** At the leading column p the product is -(entry at fc); at fc it is the entry itself. */
  lemma PivotTerms(m: Matrix, n: nat, info: SpaceInfo, fc: nat, v: Matrix, k: nat, i: nat, p: nat)
    requires m.Wf() && Describes(m, n, info) && PivotsCleared(m, n) && Consistent(m, n, info)
    requires fc < n && info.rowFor[fc] == NO_PIVOT && NegOk(m, n, info, fc, info.rank)
    requires v.Wf() && v.rows == n && k < v.cols && i < m.rows && IsLead(m.cells[i], n, p)
    requires info.rowFor[p] == i && p in info.pivotCols[..info.rank]
    requires v.cells[p][k] == NullEntry(m, n, info, fc, p, info.rank)
    requires v.cells[fc][k] == NullEntry(m, n, info, fc, fc, info.rank)
    ensures m.V(i, p) * v.V(p, k) == -m.V(i, fc)
    ensures m.V(i, fc) * v.V(fc, k) == m.V(i, fc)
  {
    ZeroOneByValue(m.cells[i][p]);
    assert fc !in info.pivotCols[..info.rank];
    CoprimeOneZero();
    ZeroOneByValue(One);
  }

  /** A zero vector meets every row in 0. */
  lemma ZeroVectorSolves(m: Matrix, i: nat, v: Matrix, k: nat, n: nat)
    requires m.Wf() && v.Wf() && i < m.rows && k < v.cols && n <= m.cols && n <= v.rows
    requires forall c :: 0 <= c < n ==> v.cells[c][k].IsZero()
    ensures ColDot(m, i, v, k, n) == 0.0
  {
    var s := Terms(m, i, v, k, n);
    forall c | 0 <= c < n
      ensures s[c] == 0.0
    {
      ZeroOneByValue(v.cells[c][k]);
      TermsAt(m, i, v, k, n, c);
      ZeroFactor(m.V(i, c), v.V(c, k), s[c]);
    }
    SumTwo(s, n, n + 1);
  }

  /**
   * Every column of the null basis built for an RREF and its info solves
   * the homogeneous system: each row of the RREF, on the first n columns,
   * times the column is 0.
   */
  lemma NullColumnsSolve(m: Matrix, n: nat, info: SpaceInfo, free: seq<nat>, b: Matrix)
    requires m.Wf() && Describes(m, n, info) && PivotsCleared(m, n) && Consistent(m, n, info)
    requires free == FreeCols(info.rowFor, n) && AllNegOk(m, n, info, free)
    requires b.Wf() && b.rows == n && b.cols == |free|
    requires forall c, k :: 0 <= c < n && 0 <= k < |free| ==> b.cells[c][k] == NullEntry(m, n, info, free[k], c, info.rank)
    ensures forall i, k :: 0 <= i < m.rows && 0 <= k < b.cols ==> ColDot(m, i, b, k, n) == 0.0
  {
    forall i, k | 0 <= i < m.rows && 0 <= k < b.cols
      ensures ColDot(m, i, b, k, n) == 0.0
    {
      NullRowSolves(m, n, info, free[k], b, k, i);
    }
  }

  /**
   * The null vectors are independent: at the free columns, vector k is 1
   * at its own free column and 0 at the others.
   */
  lemma NullVectorsIndependent(m: Matrix, n: nat, info: SpaceInfo, free: seq<nat>, j: nat, k: nat)
    requires m.Wf() && n <= m.cols && n <= MAX_COLS && Consistent(m, n, info)
    requires free == FreeCols(info.rowFor, n) && j < |free| && k < |free|
    requires NegOk(m, n, info, free[k], info.rank)
    ensures NullEntry(m, n, info, free[k], free[j], info.rank) == if j == k then One else Zero
  {
    if j != k {
      assert free[j] != free[k] by {
        if j < k {} else {}
      }
    }
  }

  // ---------------------------------------------------------------------
  // The row space
  // ---------------------------------------------------------------------

  /**
   * In an RREF described by info, the k-th listed pivot column has row k
   * as its pivot row: pivot rows increase along the list, the nonzero rows
   * come first, and each nonzero row is the pivot row of its leading column.
   */
  lemma {:induction false} PivotRowIsIndex(m: Matrix, n: nat, info: SpaceInfo, k: nat)
    requires m.Wf() && Describes(m, n, info) && Reduced(m, n) && k < info.rank
    ensures info.rowFor[info.pivotCols[k]] == k
    decreases k
  {
    forall j | 0 <= j < k
      ensures info.rowFor[info.pivotCols[j]] == j
    {
      PivotRowIsIndex(m, n, info, j);
    }
    var sk := info.rowFor[info.pivotCols[k]];
    assert IsLead(m.cells[sk], n, info.pivotCols[k]);
    if k > 0 {
      assert info.rowFor[info.pivotCols[k - 1]] < sk;
    }
    if sk > k {
      assert !ZeroOn(m.cells[k], n);
      var p := FindPivotCol(m.cells[k], n);
      LeadRow(m, n, info, k, p);
    }
  }

  /**
   * In an RREF described by info, the rows that are nonzero on the first
   * n columns are exactly the first rank rows: what space_row_basis copies
   * is every nonzero row and nothing else.
   */
  lemma NonzeroRowsFirst(m: Matrix, n: nat, info: SpaceInfo)
    requires m.Wf() && Describes(m, n, info) && Reduced(m, n)
    ensures info.rank <= m.rows
    ensures forall i :: 0 <= i < m.rows ==> (ZeroOn(m.cells[i], n) <==> i >= info.rank)
  {
    forall k | 0 <= k < info.rank
      ensures info.rowFor[info.pivotCols[k]] == k
    {
      PivotRowIsIndex(m, n, info, k);
    }
    if info.rank > 0 {
      assert info.rowFor[info.pivotCols[info.rank - 1]] < m.rows;
    }
    forall i | 0 <= i < m.rows
      ensures ZeroOn(m.cells[i], n) <==> i >= info.rank
    {
      if i < info.rank {
        assert IsLead(m.cells[i], n, info.pivotCols[i]);
      } else if !ZeroOn(m.cells[i], n) {
        var p := FindPivotCol(m.cells[i], n);
        LeadRow(m, n, info, i, p);
      }
    }
  }

  /** In an RREF described by info, the pivot columns are listed left to right. */
  lemma PivotColsIncrease(m: Matrix, n: nat, info: SpaceInfo)
    requires m.Wf() && Describes(m, n, info) && Reduced(m, n)
    ensures forall k, l :: 0 <= k < l < info.rank ==> info.pivotCols[k] < info.pivotCols[l]
  {
    forall k, l | 0 <= k < l < info.rank
      ensures info.pivotCols[k] < info.pivotCols[l]
    {
      PivotRowIsIndex(m, n, info, k);
      PivotRowIsIndex(m, n, info, l);
      assert IsLead(m.cells[k], n, info.pivotCols[k]);
      assert IsLead(m.cells[l], n, info.pivotCols[l]);
    }
  }
}
