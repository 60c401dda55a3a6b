/** The geometry of a sudoku grid: an N×N grid cut into N blocks of B×B
    cells, N = B². A grid is given by its block side B, which for the six
    sizes of SudokuSize.java runs from 2 to 7. Fields are numbered row by
    row, 0 to N²-1; blocks are numbered row by row over the B×B grid of
    blocks. */
module Geometry {
  import opened Division

  /** The block side B of a grid; the grid side is B². */
  type Dim = b: nat | 2 <= b <= 7 witness 2

  /** The side length B of a block, Math.sqrt of the grid side. */
  function BlockSide(d: Dim): (b: nat)
    ensures 2 <= b <= 7
  {
    d
  }

  /** The side length N of the grid: B copies of B. */
  function GridSide(d: Dim): (n: nat)
    ensures 4 <= n <= 49
  {
    TimesIsProduct(d, d);
    Times(d, d)
  }

  /** The number of fields N² of the grid. */
  function Area(d: Dim): nat {
    Times(GridSide(d), GridSide(d))
  }

  /** The grid side and the field count are the squares of the block side and the grid side. */
  lemma Squares(d: Dim)
    ensures GridSide(d) == BlockSide(d) * BlockSide(d)
    ensures Area(d) == GridSide(d) * GridSide(d)
  {
    TimesIsProduct(d, d);
    TimesIsProduct(GridSide(d), GridSide(d));
  }

  /* Division, remainder and multiplication by the grid side N and by the
     block side B: the row and column of a field, the block and position of
     a row or column index. */

  function DivN(d: Dim, x: nat): nat {
    Quot(x, GridSide(d))
  }

  function ModN(d: Dim, x: nat): (r: nat)
    ensures r < GridSide(d)
  {
    Rem(x, GridSide(d))
  }

  function DivB(d: Dim, x: nat): nat {
    Quot(x, BlockSide(d))
  }

  function ModB(d: Dim, x: nat): (r: nat)
    ensures r < BlockSide(d)
  {
    Rem(x, BlockSide(d))
  }

  function MulN(d: Dim, q: nat): nat {
    Times(q, GridSide(d))
  }

  function MulB(d: Dim, q: nat): nat {
    Times(q, BlockSide(d))
  }

  /** For non-negative operands these are Java's /, % and * by N and by B. */
  lemma WrittenOut(d: Dim, x: nat)
    ensures DivN(d, x) == x / GridSide(d) && ModN(d, x) == x % GridSide(d)
    ensures DivB(d, x) == x / BlockSide(d) && ModB(d, x) == x % BlockSide(d)
    ensures MulN(d, x) == x * GridSide(d) && MulB(d, x) == x * BlockSide(d)
  {
    QuotIsDiv(x, GridSide(d));
    QuotIsDiv(x, BlockSide(d));
    TimesIsProduct(x, GridSide(d));
    TimesIsProduct(x, BlockSide(d));
  }

  /** Splitting a field number gives a row and a column below N. */
  lemma FieldSplit(d: Dim, f: int)
    requires 0 <= f < Area(d)
    ensures DivN(d, f) < GridSide(d)
    ensures f == MulN(d, DivN(d, f)) + ModN(d, f)
  {
    QuotRem(f, GridSide(d));
    QuotBelow(f, GridSide(d), GridSide(d));
  }

  /** Joining a row and a column below N gives a field number that splits back. */
  lemma FieldJoin(d: Dim, r: int, c: int)
    requires 0 <= r < GridSide(d) && 0 <= c < GridSide(d)
    ensures MulN(d, r) + c < Area(d)
    ensures DivN(d, MulN(d, r) + c) == r && ModN(d, MulN(d, r) + c) == c
  {
    QuotRemUnique(r, c, GridSide(d));
    TimesStep(r, GridSide(d), GridSide(d));
  }

  /** Splitting an index below N gives a block and a position below B. */
  lemma BlockSplit(d: Dim, x: int)
    requires 0 <= x < GridSide(d)
    ensures DivB(d, x) < BlockSide(d)
    ensures x == MulB(d, DivB(d, x)) + ModB(d, x)
  {
    QuotRem(x, BlockSide(d));
    QuotBelow(x, BlockSide(d), BlockSide(d));
  }

  /** Joining a block and a position below B gives an index below N that splits back. */
  lemma BlockJoin(d: Dim, q: int, p: int)
    requires 0 <= q < BlockSide(d) && 0 <= p < BlockSide(d)
    ensures MulB(d, q) + p < GridSide(d)
    ensures DivB(d, MulB(d, q) + p) == q && ModB(d, MulB(d, q) + p) == p
  {
    QuotRemUnique(q, p, BlockSide(d));
    TimesStep(q, BlockSide(d), BlockSide(d));
  }
}
