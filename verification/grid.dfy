/** The board of NormalSudoku.java: an N×N matrix indexed [row][column],
    0 meaning an empty cell, together with the board-level notions the rules
    and the solver are stated in. */
module Grid {
  import opened Geometry

  type Matrix = seq<seq<int>>

  /** The reasons an IllegalArgumentException is raised with. */
  datatype Error =
    | InvalidMatrixSize
    | InvalidFieldNumber
    | InvalidNumber
    | InvalidBlockNumber
    | NegativeNumber
    /** The JVM's array bounds failure, reached only through the range checks as written. */
    | ArrayIndexOutOfBounds

  /** N rows of N cells each. */
  predicate Shaped(d: Dim, m: Matrix) {
    && |m| == GridSide(d)
    && forall i | 0 <= i < |m| :: |m[i]| == GridSide(d)
  }

  /** The cell that field f denotes in the solver and the legality check:
      row f / N, column f % N (row-major, as in the field diagram). */
  function Cell(d: Dim, m: Matrix, f: int): int
    requires Shaped(d, m) && 0 <= f < Area(d)
  {
    FieldSplit(d, f);
    m[DivN(d, f)][ModN(d, f)]
  }

  /** The board with field f (row-major) set to v and every other cell kept. */
  function Fill(d: Dim, m: Matrix, f: int, v: int): (r: Matrix)
    requires Shaped(d, m) && 0 <= f < Area(d)
    ensures Shaped(d, r)
  {
    FieldSplit(d, f);
    m[DivN(d, f) := m[DivN(d, f)][ModN(d, f) := v]]
  }

  /** Fill changes the one cell field f denotes and nothing else. */
  lemma FillCells(d: Dim, m: Matrix, f: int, v: int)
    requires Shaped(d, m) && 0 <= f < Area(d)
    ensures 0 <= DivN(d, f) < GridSide(d) && 0 <= ModN(d, f) < GridSide(d)
    ensures Fill(d, m, f, v)[DivN(d, f)][ModN(d, f)] == v
    ensures Cell(d, Fill(d, m, f, v), f) == v
    ensures forall i, j | 0 <= i < GridSide(d) && 0 <= j < GridSide(d) && (i != DivN(d, f) || j != ModN(d, f)) ::
              Fill(d, m, f, v)[i][j] == m[i][j]
  {
    FieldSplit(d, f);
  }

  /** No cell is empty. */
  predicate Full(d: Dim, m: Matrix) {
    && Shaped(d, m)
    && forall i, j | 0 <= i < GridSide(d) && 0 <= j < GridSide(d) :: m[i][j] != 0
  }

  /** x keeps every given (nonzero) cell of m. */
  predicate Extends(d: Dim, x: Matrix, m: Matrix) {
    && Shaped(d, x) && Shaped(d, m)
    && forall i, j | 0 <= i < GridSide(d) && 0 <= j < GridSide(d) :: m[i][j] != 0 ==> x[i][j] == m[i][j]
  }

  /** Every cell holds 0 (empty) or a number 1..N. */
  predicate InRange(d: Dim, m: Matrix) {
    && Shaped(d, m)
    && forall i, j | 0 <= i < GridSide(d) && 0 <= j < GridSide(d) :: 0 <= m[i][j] <= GridSide(d)
  }

  /** Cells (i, j) and (r, c) share a row, a column or a block. */
  predicate Peer(d: Dim, i: int, j: int, r: int, c: int)
    requires 0 <= i && 0 <= j && 0 <= r && 0 <= c
  {
    i == r || j == c || (DivB(d, i) == DivB(d, r) && DivB(d, j) == DivB(d, c))
  }

  /** No number occurs twice in any row, column or block. */
  predicate Consistent(d: Dim, m: Matrix) {
    && Shaped(d, m)
    && forall i1, j1, i2, j2 |
         && 0 <= i1 < GridSide(d) && 0 <= j1 < GridSide(d)
         && 0 <= i2 < GridSide(d) && 0 <= j2 < GridSide(d)
         && (i1 != i2 || j1 != j2) && Peer(d, i1, j1, i2, j2) && m[i1][j1] != 0
         :: m[i1][j1] != m[i2][j2]
  }

  /** A board that keeps the givens of m keeps every clash between them:
      two peers of m holding the same number hold it in x as well. */
  lemma ClashKept(d: Dim, x: Matrix, m: Matrix)
    requires Extends(d, x, m)
    ensures !Consistent(d, m) ==> !Consistent(d, x)
  {
  }

  /** A solved Sudoku that keeps the givens of m. */
  predicate IsCompletion(d: Dim, m: Matrix, x: Matrix) {
    Full(d, x) && Extends(d, x, m) && Consistent(d, x) && InRange(d, x)
  }

  /** The number of empty cells of a row. */
  function RowZeros(row: seq<int>): nat {
    if |row| == 0 then 0 else (if row[0] == 0 then 1 else 0) + RowZeros(row[1..])
  }

  /** The number of empty cells of a board; the solver's termination measure. */
  function Zeros(m: Matrix): nat {
    if |m| == 0 then 0 else RowZeros(m[0]) + Zeros(m[1..])
  }

  lemma {:induction false} RowZerosFill(row: seq<int>, j: int, v: int)
    requires 0 <= j < |row| && row[j] == 0 && v != 0
    ensures RowZeros(row[j := v]) + 1 == RowZeros(row)
    decreases j
  {
    if j == 0 {
      assert row[j := v][1..] == row[1..];
    } else {
      assert row[j := v][1..] == row[1..][j - 1 := v];
      RowZerosFill(row[1..], j - 1, v);
    }
  }

  lemma {:induction false} ZerosReplaceRow(m: Matrix, i: int, row: seq<int>)
    requires 0 <= i < |m|
    ensures Zeros(m[i := row]) + RowZeros(m[i]) == Zeros(m) + RowZeros(row)
    decreases i
  {
    if i == 0 {
      assert m[i := row][1..] == m[1..];
    } else {
      assert m[i := row][1..] == m[1..][i - 1 := row];
      ZerosReplaceRow(m[1..], i - 1, row);
    }
  }

  /** Filling an empty cell with a number leaves one empty cell fewer. */
  lemma FillDecreasesZeros(d: Dim, m: Matrix, f: int, v: int)
    requires Shaped(d, m) && 0 <= f < Area(d)
    requires Cell(d, m, f) == 0 && v != 0
    ensures Zeros(Fill(d, m, f, v)) + 1 == Zeros(m)
  {
    FieldSplit(d, f);
    var r, c := DivN(d, f), ModN(d, f);
    RowZerosFill(m[r], c, v);
    ZerosReplaceRow(m, r, m[r][c := v]);
  }
}
