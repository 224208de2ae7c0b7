/**
 * LaTeX output of rationals and matrices (latex_view.cpp).
 *
 * Each writer is characterised by the text it appends: `Append(w, Text)`
 * for a reference text built from the matrix. The public entry points
 * empty the buffer first, so their result is that text appended to a fresh
 * buffer -- all of it, or BufferTooSmall with the prefix that fitted.
 */
module Latex {

  import opened Errors
  import opened Rationals
  import opened Matrices
  import opened Writers

  datatype Brackets = BMatrix | PMatrix | VMatrix

  function BeginEnv(b: Brackets): string
  {
    match b
    case BMatrix => "\\begin{bmatrix}"
    case PMatrix => "\\begin{pmatrix}"
    case VMatrix => "\\begin{vmatrix}"
  }

  function EndEnv(b: Brackets): string
  {
    match b
    case BMatrix => "\\end{bmatrix}"
    case PMatrix => "\\end{pmatrix}"
    case VMatrix => "\\end{vmatrix}"
  }

  // ---------------------------------------------------------------------
  // Reference texts
  // ---------------------------------------------------------------------

  /** Entries col.. of a row, separated by " & ". */
  function EntriesText(m: Matrix, row: nat, col: nat): string
    requires m.Wf() && row < m.rows && col <= m.cols
    decreases m.cols - col
  {
    if col == m.cols then ""
    else (if col != 0 then " & " else "") + RationalText(m.cells[row][col]) + EntriesText(m, row, col + 1)
  }

  /** Rows row.. of a matrix, separated by " \\ ". */
  function RowsText(m: Matrix, row: nat): string
    requires m.Wf() && row <= m.rows
    decreases m.rows - row
  {
    if row == m.rows then ""
    else EntriesText(m, row, 0) + (if row + 1 < m.rows then " \\\\ " else "") + RowsText(m, row + 1)
  }

  function MatrixText(m: Matrix, b: Brackets): string
    requires m.Wf()
  {
    BeginEnv(b) + RowsText(m, 0) + EndEnv(b)
  }

  function Display(s: string): string { "$$" + s + "$$" }

  // ---------------------------------------------------------------------
  // Writers
  // ---------------------------------------------------------------------

  /** The inner column loop of write_matrix_inner. */
  function WriteEntries(w: Writer, m: Matrix, row: nat, col: nat): (r: Emitted)
    requires w.Valid() && m.Wf() && row < m.rows && col <= m.cols
    ensures r == Append(w, EntriesText(m, row, col))
    decreases m.cols - col
  {
    if col == m.cols then
      AppendNothing(w);
      Emitted(w, Ok)
    else
      var sep := if col != 0 then " & " else "";
      var q := RationalText(m.cells[row][col]);
      var e1 := if col != 0 then Append(w, " & ") else Emitted(w, Ok);
      AppendNothing(w);
      var e2 := if e1.ec != Ok then e1 else AppendRationalLatex(e1.w, m.cells[row][col]);
      var e3 := if e2.ec != Ok then e2 else WriteEntries(e2.w, m, row, col + 1);
      AppendChain(w, sep, q);
      AppendChain(w, sep + q, EntriesText(m, row, col + 1));
      e3
  }

  /** The outer row loop of write_matrix_inner. */
  function WriteRows(w: Writer, m: Matrix, row: nat): (r: Emitted)
    requires w.Valid() && m.Wf() && row <= m.rows
    ensures r == Append(w, RowsText(m, row))
    decreases m.rows - row
  {
    if row == m.rows then
      AppendNothing(w);
      Emitted(w, Ok)
    else
      var sep := if row + 1 < m.rows then " \\\\ " else "";
      var e1 := WriteEntries(w, m, row, 0);
      var e2 := if e1.ec != Ok then e1 else if row + 1 < m.rows then Append(e1.w, " \\\\ ") else e1;
      AppendNothing(e1.w);
      var e3 := if e2.ec != Ok then e2 else WriteRows(e2.w, m, row + 1);
      AppendChain(w, EntriesText(m, row, 0), sep);
      AppendChain(w, EntriesText(m, row, 0) + sep, RowsText(m, row + 1));
      e3
  }

  /** write_matrix_inner: begin_env, the rows, end_env. */
  function WriteMatrixInner(w: Writer, m: Matrix, b: Brackets): (r: Emitted)
    requires w.Valid() && m.Wf()
    ensures r == Append(w, MatrixText(m, b))
  {
    var e1 := Append(w, BeginEnv(b));
    var e2 := if e1.ec != Ok then e1 else WriteRows(e1.w, m, 0);
    var e3 := AppendThen(e2, EndEnv(b));
    AppendChain(w, BeginEnv(b), RowsText(m, 0));
    AppendChain(w, BeginEnv(b) + RowsText(m, 0), EndEnv(b));
    e3
  }

  /** Wrapping a writer in "$$ ... $$". */
  lemma DisplayChain(w: Writer, s: string, inner: Emitted)
    requires w.Valid()
    requires Append(w, "$$").ec == Ok ==> inner == Append(Append(w, "$$").w, s)
    ensures AppendThen(if Append(w, "$$").ec != Ok then Append(w, "$$") else inner, "$$") == Append(w, Display(s))
  {
    AppendChain(w, "$$", s);
    AppendChain(w, "$$" + s, "$$");
  }

  /** write_matrix: the matrix in a freshly emptied buffer. */
  function WriteMatrix(m: Matrix, b: Brackets, cap: nat): (r: Emitted)
    requires m.Wf()
    ensures r == Append(Fresh(cap), MatrixText(m, b))
    ensures r.ec == Ok <==> |MatrixText(m, b)| < cap
  {
    WriteMatrixInner(Fresh(cap), m, b)
  }

  /** write_matrix_display: "$$" + the matrix + "$$". */
  function WriteMatrixDisplay(m: Matrix, b: Brackets, cap: nat): (r: Emitted)
    requires m.Wf()
    ensures r == Append(Fresh(cap), Display(MatrixText(m, b)))
    ensures r.ec == Ok <==> |Display(MatrixText(m, b))| < cap
  {
    var w := Fresh(cap);
    var e1 := Append(w, "$$");
    var e2 := if e1.ec != Ok then e1 else WriteMatrixInner(e1.w, m, b);
    DisplayChain(w, MatrixText(m, b), e2);
    AppendThen(e2, "$$")
  }

  /** write_rational: the rational's LaTeX in a freshly emptied buffer. */
  function WriteRational(q: Rational, cap: nat): (r: Emitted)
    requires q.Valid()
    ensures r == Append(Fresh(cap), RationalText(q))
  {
    AppendRationalLatex(Fresh(cap), q)
  }

  /** write_rational_display */
  function WriteRationalDisplay(q: Rational, cap: nat): (r: Emitted)
    requires q.Valid()
    ensures r == Append(Fresh(cap), Display(RationalText(q)))
  {
    var w := Fresh(cap);
    var e1 := Append(w, "$$");
    var e2 := if e1.ec != Ok then e1 else AppendRationalLatex(e1.w, q);
    DisplayChain(w, RationalText(q), e2);
    AppendThen(e2, "$$")
  }

  // ---------------------------------------------------------------------
  // Augmented matrices [L | R]
  // ---------------------------------------------------------------------

  function Repeat(ch: char, n: nat): (s: string)
    ensures |s| == n && forall i :: 0 <= i < n ==> s[i] == ch
  {
    if n == 0 then "" else [ch] + Repeat(ch, n - 1)
  }

  /** n calls of put(ch). */
  function PutRepeat(w: Writer, ch: char, n: nat): (r: Emitted)
    requires w.Valid()
    ensures r == Append(w, Repeat(ch, n))
    decreases n
  {
    if n == 0 then
      AppendNothing(w);
      Emitted(w, Ok)
    else
      var e := Put(w, ch);
      PutIsAppend(w, ch);
      AppendChain(w, [ch], Repeat(ch, n - 1));
      if e.ec != Ok then e else PutRepeat(e.w, ch, n - 1)
  }

  /** The array header: one `r` per column of each side, separated by `|`. */
  function AugHeader(lc: nat, rc: nat): string
  {
    "\\left[\\begin{array}{" + Repeat('r', lc) + "|" + Repeat('r', rc) + "}"
  }

  const AUG_END := "\\end{array}\\right]"

  /** The two sides of an augmented matrix can be printed together. */
  predicate Pair(l: Matrix, r: Matrix) { l.Wf() && r.Wf() && l.rows == r.rows }

  /** Entry col of row `row` of [L | R]. */
  function AugAt(l: Matrix, r: Matrix, row: nat, col: nat): Rational
    requires Pair(l, r) && row < l.rows && col < l.cols + r.cols
  {
    if col < l.cols then l.cells[row][col] else r.cells[row][col - l.cols]
  }

  /** Entries col..total of a row of [L | R]. */
  function AugEntriesText(l: Matrix, r: Matrix, total: nat, row: nat, col: nat): string
    requires Pair(l, r) && row < l.rows && col <= total <= l.cols + r.cols
    decreases total - col
  {
    if col == total then ""
    else (if col != 0 then " & " else "") + RationalText(AugAt(l, r, row, col)) + AugEntriesText(l, r, total, row, col + 1)
  }

  function AugRowsText(l: Matrix, r: Matrix, total: nat, row: nat): string
    requires Pair(l, r) && row <= l.rows && total <= l.cols + r.cols
    decreases l.rows - row
  {
    if row == l.rows then ""
    else AugEntriesText(l, r, total, row, 0) + (if row + 1 < l.rows then " \\\\ " else "") + AugRowsText(l, r, total, row + 1)
  }

  /** The augmented text printing `total` entries per row. */
  function AugTextWith(l: Matrix, r: Matrix, total: nat): string
    requires Pair(l, r) && total <= l.cols + r.cols
  {
    AugHeader(l.cols, r.cols) + AugRowsText(l, r, total, 0) + AUG_END
  }

  /** The augmented text with every column of both sides. */
  function AugText(l: Matrix, r: Matrix): string
    requires Pair(l, r)
  {
    AugTextWith(l, r, l.cols + r.cols)
  }

  function WriteAugEntries(w: Writer, l: Matrix, r: Matrix, total: nat, row: nat, col: nat): (e: Emitted)
    requires w.Valid() && Pair(l, r) && row < l.rows && col <= total <= l.cols + r.cols
    ensures e == Append(w, AugEntriesText(l, r, total, row, col))
    decreases total - col
  {
    if col == total then
      AppendNothing(w);
      Emitted(w, Ok)
    else
      var sep := if col != 0 then " & " else "";
      var q := RationalText(AugAt(l, r, row, col));
      var e1 := if col != 0 then Append(w, " & ") else Emitted(w, Ok);
      AppendNothing(w);
      var e2 := if e1.ec != Ok then e1 else AppendRationalLatex(e1.w, AugAt(l, r, row, col));
      var e3 := if e2.ec != Ok then e2 else WriteAugEntries(e2.w, l, r, total, row, col + 1);
      AppendChain(w, sep, q);
      AppendChain(w, sep + q, AugEntriesText(l, r, total, row, col + 1));
      e3
  }

  function WriteAugRows(w: Writer, l: Matrix, r: Matrix, total: nat, row: nat): (e: Emitted)
    requires w.Valid() && Pair(l, r) && row <= l.rows && total <= l.cols + r.cols
    ensures e == Append(w, AugRowsText(l, r, total, row))
    decreases l.rows - row
  {
    if row == l.rows then
      AppendNothing(w);
      Emitted(w, Ok)
    else
      var sep := if row + 1 < l.rows then " \\\\ " else "";
      var e1 := WriteAugEntries(w, l, r, total, row, 0);
      var e2 := if e1.ec != Ok then e1 else if row + 1 < l.rows then Append(e1.w, " \\\\ ") else e1;
      AppendNothing(e1.w);
      var e3 := if e2.ec != Ok then e2 else WriteAugRows(e2.w, l, r, total, row + 1);
      AppendChain(w, AugEntriesText(l, r, total, row, 0), sep);
      AppendChain(w, AugEntriesText(l, r, total, row, 0) + sep, AugRowsText(l, r, total, row + 1));
      e3
  }

  /** The header, the rows printing `total` entries each, and the closing. */
  function WriteAugBody(w: Writer, l: Matrix, r: Matrix, total: nat): (e: Emitted)
    requires w.Valid() && Pair(l, r) && total <= l.cols + r.cols
    ensures e == Append(w, AugTextWith(l, r, total))
  {
    var h1 := "\\left[\\begin{array}{";
    var h2 := h1 + Repeat('r', l.cols);
    var h3 := h2 + "|";
    var h4 := h3 + Repeat('r', r.cols);
    var e1 := Append(w, h1);
    var e2 := if e1.ec != Ok then e1 else PutRepeat(e1.w, 'r', l.cols);
    var e3 := if e2.ec != Ok then e2 else Put(e2.w, '|');
    PutIsAppend(e2.w, '|');
    var e4 := if e3.ec != Ok then e3 else PutRepeat(e3.w, 'r', r.cols);
    var e5 := AppendThen(e4, "}");
    var e6 := if e5.ec != Ok then e5 else WriteAugRows(e5.w, l, r, total, 0);
    var e7 := AppendThen(e6, AUG_END);
    AppendChain(w, h1, Repeat('r', l.cols));
    AppendChain(w, h2, "|");
    AppendChain(w, h3, Repeat('r', r.cols));
    AppendChain(w, h4, "}");
    AppendChain(w, AugHeader(l.cols, r.cols), AugRowsText(l, r, total, 0));
    AppendChain(w, AugHeader(l.cols, r.cols) + AugRowsText(l, r, total, 0), AUG_END);
    e7
  }

  /**
   * write_augmented_matrix_inner as written: DimensionMismatch when the row
   * counts differ, InvalidDimension when a side has no column, nothing
   * written in either case; the loop bound is the uint8 sum of the column
   * counts, which wraps at 256.
   */
  function WriteAugmentedAsWritten(w: Writer, l: Matrix, r: Matrix): (e: Emitted)
    requires w.Valid() && l.Wf() && r.Wf()
    ensures l.rows != r.rows ==> e == Emitted(w, DimensionMismatch)
    ensures l.rows == r.rows && (l.cols == 0 || r.cols == 0) ==> e == Emitted(w, InvalidDimension)
    ensures Pair(l, r) && l.cols != 0 && r.cols != 0 ==>
              e == Append(w, AugTextWith(l, r, (l.cols + r.cols) % 256))
  {
    if l.rows != r.rows then Emitted(w, DimensionMismatch)
    else if l.cols == 0 || r.cols == 0 then Emitted(w, InvalidDimension)
    else WriteAugBody(w, l, r, (l.cols + r.cols) % 256)
  }

  /** The same writer with the column loop running over every column of both sides. */
  function WriteAugmentedInner(w: Writer, l: Matrix, r: Matrix): (e: Emitted)
    requires w.Valid() && l.Wf() && r.Wf()
    ensures l.rows != r.rows ==> e == Emitted(w, DimensionMismatch)
    ensures l.rows == r.rows && (l.cols == 0 || r.cols == 0) ==> e == Emitted(w, InvalidDimension)
    ensures Pair(l, r) && l.cols != 0 && r.cols != 0 ==> e == Append(w, AugText(l, r))
  {
    if l.rows != r.rows then Emitted(w, DimensionMismatch)
    else if l.cols == 0 || r.cols == 0 then Emitted(w, InvalidDimension)
    else WriteAugBody(w, l, r, l.cols + r.cols)
  }

  /** Two 128-column sides: the header announces 256 columns, but no entry is printed. */
  lemma AugmentedWraps(l: Matrix, r: Matrix)
    requires Pair(l, r) && l.rows == 1 && l.cols == 128 && r.cols == 128
    ensures (l.cols + r.cols) % 256 == 0
    ensures AugTextWith(l, r, (l.cols + r.cols) % 256) == AugHeader(128, 128) + AUG_END
    ensures AugEntriesText(l, r, l.cols + r.cols, 0, 0) != ""
  {
    assert AugRowsText(l, r, 0, 1) == "";
    assert AugEntriesText(l, r, 0, 0, 0) == "";
    assert AugRowsText(l, r, 0, 0) == "";
    var q := RationalText(AugAt(l, r, 0, 0));
    assert |q| >= 1;
  }

  /** b holds [L | R]: L's rows with R's rows appended. */
  predicate HoldsBeside(l: Matrix, r: Matrix, b: Matrix)
    requires Pair(l, r)
  {
    b.Wf() && b.rows == l.rows && b.cols == l.cols + r.cols &&
    forall i, j :: 0 <= i < b.rows && 0 <= j < b.cols ==> b.cells[i][j] == AugAt(l, r, i, j)
  }

  /** A row of [L | R] prints as the same row of a matrix that holds [L | R]. */
  lemma {:induction false} AugEntriesAs(l: Matrix, r: Matrix, b: Matrix, row: nat, col: nat)
    requires Pair(l, r) && HoldsBeside(l, r, b) && row < l.rows && col <= l.cols + r.cols
    ensures AugEntriesText(l, r, l.cols + r.cols, row, col) == EntriesText(b, row, col)
    decreases l.cols + r.cols - col
  {
    if col < l.cols + r.cols {
      AugEntriesAs(l, r, b, row, col + 1);
    }
  }

  /** Row texts joined by " \\\\ ". */
  function Joined(texts: seq<string>): string
    decreases |texts|
  {
    if |texts| == 0 then "" else texts[0] + (if |texts| > 1 then " \\\\ " else "") + Joined(texts[1..])
  }

  /** The texts of rows row.. of m. */
  function RowTexts(m: Matrix, row: nat): (t: seq<string>)
    requires m.Wf() && row <= m.rows
    ensures |t| == m.rows - row
  {
    seq(m.rows - row, i requires 0 <= i < m.rows - row => EntriesText(m, row + i, 0))
  }

  /** The texts of rows row.. of [L | R], `total` entries each. */
  function AugRowTexts(l: Matrix, r: Matrix, total: nat, row: nat): (t: seq<string>)
    requires Pair(l, r) && row <= l.rows && total <= l.cols + r.cols
    ensures |t| == l.rows - row
  {
    seq(l.rows - row, i requires 0 <= i < l.rows - row => AugEntriesText(l, r, total, row + i, 0))
  }

  lemma {:induction false} RowsJoined(m: Matrix, row: nat)
    requires m.Wf() && row <= m.rows
    ensures RowsText(m, row) == Joined(RowTexts(m, row))
    decreases m.rows - row
  {
    if row < m.rows {
      RowsJoined(m, row + 1);
      assert RowTexts(m, row)[1..] == RowTexts(m, row + 1);
    }
  }

  lemma {:induction false} AugRowsJoined(l: Matrix, r: Matrix, total: nat, row: nat)
    requires Pair(l, r) && row <= l.rows && total <= l.cols + r.cols
    ensures AugRowsText(l, r, total, row) == Joined(AugRowTexts(l, r, total, row))
    decreases l.rows - row
  {
    if row < l.rows {
      AugRowsJoined(l, r, total, row + 1);
      assert AugRowTexts(l, r, total, row)[1..] == AugRowTexts(l, r, total, row + 1);
    }
  }

  /** [L | R] prints as the matrix whose rows are L's rows followed by R's. */
  lemma AugRowsBeside(l: Matrix, r: Matrix, row: nat)
    requires Pair(l, r) && row <= l.rows && l.cols + r.cols < 256
    ensures AugRowsText(l, r, l.cols + r.cols, row) == RowsText(Beside(l, r), row)
  {
    var b := Beside(l, r);
    forall i | 0 <= i < l.rows - row
      ensures AugRowTexts(l, r, l.cols + r.cols, row)[i] == RowTexts(b, row)[i]
    {
      AugEntriesAs(l, r, b, row + i, 0);
    }
    assert AugRowTexts(l, r, l.cols + r.cols, row) == RowTexts(b, row);
    AugRowsJoined(l, r, l.cols + r.cols, row);
    RowsJoined(b, row);
  }

  /** The matrix [L | R]. */
  function Beside(l: Matrix, r: Matrix): (m: Matrix)
    requires Pair(l, r) && l.cols + r.cols < 256
    ensures m.Wf() && m.rows == l.rows && m.cols == l.cols + r.cols
    ensures forall i, j :: 0 <= i < m.rows && 0 <= j < m.cols ==> m.cells[i][j] == AugAt(l, r, i, j)
  {
    Matrix(l.rows, l.cols + r.cols, seq(l.rows, i requires 0 <= i < l.rows => l.cells[i] + r.cells[i]))
  }

  /** write_augmented_matrix */
  function WriteAugmented(l: Matrix, r: Matrix, cap: nat): (e: Emitted)
    requires l.Wf() && r.Wf()
    ensures l.rows != r.rows ==> e == Emitted(Fresh(cap), DimensionMismatch)
    ensures l.rows == r.rows && (l.cols == 0 || r.cols == 0) ==> e == Emitted(Fresh(cap), InvalidDimension)
    ensures Pair(l, r) && l.cols != 0 && r.cols != 0 ==> e == Append(Fresh(cap), AugText(l, r))
  {
    WriteAugmentedInner(Fresh(cap), l, r)
  }

  /** write_augmented_matrix_display: the same between "$$" delimiters; the shape checks come after the opening "$$". */
  function WriteAugmentedDisplay(l: Matrix, r: Matrix, cap: nat): (e: Emitted)
    requires l.Wf() && r.Wf()
    ensures Pair(l, r) && l.cols != 0 && r.cols != 0 ==> e == Append(Fresh(cap), Display(AugText(l, r)))
    ensures e.ec == Ok ==> Pair(l, r) && l.cols != 0 && r.cols != 0
    ensures l.rows != r.rows && 2 < cap ==> e.ec == DimensionMismatch && e.w.text == "$$"
  {
    var w := Fresh(cap);
    var e1 := Append(w, "$$");
    var e2 := if e1.ec != Ok then e1 else WriteAugmentedInner(e1.w, l, r);
    if Pair(l, r) && l.cols != 0 && r.cols != 0 then
      DisplayChain(w, AugText(l, r), e2);
      AppendThen(e2, "$$")
    else
      AppendThen(e2, "$$")
  }
}
