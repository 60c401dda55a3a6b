/** The rules of NormalSudoku.java: block extraction (getBlock) and the
    legality of a move (isValidMove), on an arbitrary matrix of the board's
    size, as the private overloads take it. */
module Rules {
  import opened Wrappers
  import opened Geometry
  import opened Grid

  /** The block holding cell (r, c), numbered row by row over the B×B grid of blocks. */
  function BlockOf(d: Dim, r: int, c: int): int
    requires 0 <= r && 0 <= c
  {
    MulB(d, DivB(d, r)) + DivB(d, c)
  }

  /** Two cells of the grid lie in the same block exactly when both their
      block rows and block columns agree. */
  lemma SameBlock(d: Dim, i: int, j: int, r: int, c: int)
    requires 0 <= i < GridSide(d) && 0 <= j < GridSide(d)
    requires 0 <= r < GridSide(d) && 0 <= c < GridSide(d)
    ensures 0 <= BlockOf(d, i, j) < GridSide(d)
    ensures BlockOf(d, i, j) == BlockOf(d, r, c) <==> DivB(d, i) == DivB(d, r) && DivB(d, j) == DivB(d, c)
  {
    BlockSplit(d, i);
    BlockSplit(d, j);
    BlockSplit(d, r);
    BlockSplit(d, c);
    BlockJoin(d, DivB(d, i), DivB(d, j));
    BlockJoin(d, DivB(d, r), DivB(d, c));
  }

  /** The B×B values of block k: row p, column q of the block is cell
      (B*(k div B) + p, B*(k mod B) + q) of the board. */
  function BlockValues(d: Dim, m: Matrix, k: int): (r: Matrix)
    requires Shaped(d, m) && 0 <= k < GridSide(d)
    ensures |r| == BlockSide(d) && forall p | 0 <= p < BlockSide(d) :: |r[p]| == BlockSide(d)
  {
    var b := BlockSide(d);
    BlockSplit(d, k);
    BlockJoin(d, DivB(d, k), b - 1);
    BlockJoin(d, ModB(d, k), b - 1);
    var top, left := MulB(d, DivB(d, k)), MulB(d, ModB(d, k));
    seq(b, p requires 0 <= p < b => m[top + p][left..left + b])
  }

  /** getBlock: the B×B values of block k, copied out of the board; any block
      number outside 0..N-1 is refused. Cell (i, j) of the block it belongs to
      sits at position [i mod B][j mod B]. */
  function GetBlock(d: Dim, m: Matrix, k: int): (r: Result<Matrix, Error>)
    requires Shaped(d, m)
    ensures r.Failure? <==> !(0 <= k < GridSide(d))
    ensures r.Failure? ==> r.error == InvalidBlockNumber
    ensures r.Success? ==> |r.value| == BlockSide(d) && forall p | 0 <= p < BlockSide(d) :: |r.value[p]| == BlockSide(d)
    ensures r.Success? ==>
              forall i, j | 0 <= i < GridSide(d) && 0 <= j < GridSide(d) && BlockOf(d, i, j) == k ::
                r.value[ModB(d, i)][ModB(d, j)] == m[i][j]
  {
    if k < 0 || k >= GridSide(d) then Failure(InvalidBlockNumber)
    else
      var fields := BlockValues(d, m, k);
      assert forall i, j | 0 <= i < GridSide(d) && 0 <= j < GridSide(d) && BlockOf(d, i, j) == k ::
               fields[ModB(d, i)][ModB(d, j)] == m[i][j] by {
        forall i, j | 0 <= i < GridSide(d) && 0 <= j < GridSide(d) && BlockOf(d, i, j) == k
          ensures fields[ModB(d, i)][ModB(d, j)] == m[i][j]
        {
          BlockValuesAt(d, m, k, i, j);
        }
      }
      Success(fields)
  }

  /** Cell (i, j) of block k sits at position [i mod B][j mod B] of its values. */
  lemma BlockValuesAt(d: Dim, m: Matrix, k: int, i: int, j: int)
    requires Shaped(d, m) && 0 <= i < GridSide(d) && 0 <= j < GridSide(d) && BlockOf(d, i, j) == k
    ensures 0 <= k < GridSide(d) && 0 <= ModB(d, i) < BlockSide(d) && 0 <= ModB(d, j) < BlockSide(d)
    ensures BlockValues(d, m, k)[ModB(d, i)][ModB(d, j)] == m[i][j]
  {
    BlockSplit(d, i);
    BlockSplit(d, j);
    BlockJoin(d, DivB(d, i), DivB(d, j));
    assert DivB(d, k) == DivB(d, i) && ModB(d, k) == DivB(d, j);
    BlockValuesCorner(d, m, k, ModB(d, i), ModB(d, j));
  }

  /** Position [p][q] of the values of block k is read from the block's top-left corner moved p rows down and q columns right. */
  lemma BlockValuesCorner(d: Dim, m: Matrix, k: int, p: int, q: int)
    requires Shaped(d, m) && 0 <= k < GridSide(d) && 0 <= p < BlockSide(d) && 0 <= q < BlockSide(d)
    ensures MulB(d, DivB(d, k)) + p < GridSide(d) && MulB(d, ModB(d, k)) + q < GridSide(d)
    ensures BlockValues(d, m, k)[p][q] == m[MulB(d, DivB(d, k)) + p][MulB(d, ModB(d, k)) + q]
  {
    var b := BlockSide(d);
    BlockSplit(d, k);
    BlockJoin(d, DivB(d, k), p);
    BlockJoin(d, ModB(d, k), q);
    BlockJoin(d, DivB(d, k), b - 1);
    BlockJoin(d, ModB(d, k), b - 1);
    var top, left := MulB(d, DivB(d, k)), MulB(d, ModB(d, k));
    assert BlockValues(d, m, k)[p] == m[top + p][left..left + b];
  }

  /** Every position of a block is taken by a cell of that block. */
  lemma BlockPositionCell(d: Dim, k: int, p: int, q: int) returns (i: int, j: int)
    requires 0 <= k < GridSide(d) && 0 <= p < BlockSide(d) && 0 <= q < BlockSide(d)
    ensures 0 <= i < GridSide(d) && 0 <= j < GridSide(d)
    ensures BlockOf(d, i, j) == k && ModB(d, i) == p && ModB(d, j) == q
  {
    BlockSplit(d, k);
    BlockJoin(d, DivB(d, k), p);
    BlockJoin(d, ModB(d, k), q);
    i := MulB(d, DivB(d, k)) + p;
    j := MulB(d, ModB(d, k)) + q;
  }

  /** The value at position [i mod B][j mod B] of the block holding cell (i, j) is that cell's value. */
  lemma BlockEntry(d: Dim, m: Matrix, k: int, i: int, j: int)
    requires Shaped(d, m) && 0 <= i < GridSide(d) && 0 <= j < GridSide(d) && BlockOf(d, i, j) == k
    ensures 0 <= k < GridSide(d)
    ensures GetBlock(d, m, k).value[ModB(d, i)][ModB(d, j)] == m[i][j]
  {
    SameBlock(d, i, j, i, j);
  }

  /** Block 0 is the top-left B×B sub-grid. */
  lemma TopLeftBlock(d: Dim, m: Matrix, p: int, q: int)
    requires Shaped(d, m) && 0 <= p < BlockSide(d) && 0 <= q < BlockSide(d)
    ensures GetBlock(d, m, 0).Success?
    ensures GetBlock(d, m, 0).value[p][q] == m[p][q]
  {
    BlockJoin(d, 0, p);
    BlockJoin(d, 0, q);
    BlockEntry(d, m, BlockOf(d, p, q), p, q);
  }

  /** Block N-1 is the bottom-right B×B sub-grid. */
  lemma BottomRightBlock(d: Dim, m: Matrix, p: int, q: int)
    requires Shaped(d, m) && 0 <= p < BlockSide(d) && 0 <= q < BlockSide(d)
    ensures GetBlock(d, m, GridSide(d) - 1).Success?
    ensures var corner := GridSide(d) - BlockSide(d);
            GetBlock(d, m, GridSide(d) - 1).value[p][q] == m[corner + p][corner + q]
  {
    var corner := GridSide(d) - BlockSide(d);
    LastBlockCorner(d);
    BlockCornerAt(d, m, GridSide(d) - 1, corner, corner, p, q);
  }

  /** Position [p][q] of block k is the cell p rows below and q columns right of the block's top-left corner. */
  lemma BlockCorner(d: Dim, m: Matrix, k: int, p: int, q: int)
    requires Shaped(d, m) && 0 <= k < GridSide(d) && 0 <= p < BlockSide(d) && 0 <= q < BlockSide(d)
    ensures MulB(d, DivB(d, k)) + p < GridSide(d) && MulB(d, ModB(d, k)) + q < GridSide(d)
    ensures GetBlock(d, m, k).Success?
    ensures GetBlock(d, m, k).value[p][q] == m[MulB(d, DivB(d, k)) + p][MulB(d, ModB(d, k)) + q]
  {
    BlockValuesCorner(d, m, k, p, q);
    GetBlockValues(d, m, k);
  }

  /** BlockCorner for a block whose corner row and column are known. */
  lemma BlockCornerAt(d: Dim, m: Matrix, k: int, top: int, left: int, p: int, q: int)
    requires Shaped(d, m) && 0 <= k < GridSide(d) && 0 <= p < BlockSide(d) && 0 <= q < BlockSide(d)
    requires top == MulB(d, DivB(d, k)) && left == MulB(d, ModB(d, k))
    ensures 0 <= top + p < GridSide(d) && 0 <= left + q < GridSide(d)
    ensures GetBlock(d, m, k).Success? && GetBlock(d, m, k).value[p][q] == m[top + p][left + q]
  {
    BlockCorner(d, m, k, p, q);
  }

  /** An accepted block number yields exactly the copied-out values. */
  lemma GetBlockValues(d: Dim, m: Matrix, k: int)
    requires Shaped(d, m) && 0 <= k < GridSide(d)
    ensures GetBlock(d, m, k) == Success(BlockValues(d, m, k))
  {
  }

  /** Block N-1 is the last block of the last block row; its first row and column are N-B. */
  lemma LastBlockCorner(d: Dim)
    ensures DivB(d, GridSide(d) - 1) == BlockSide(d) - 1
    ensures ModB(d, GridSide(d) - 1) == BlockSide(d) - 1
    ensures MulB(d, BlockSide(d) - 1) == GridSide(d) - BlockSide(d)
  {
    var b := BlockSide(d);
    assert MulB(d, b - 1) == GridSide(d) - b;
    BlockJoin(d, b - 1, b - 1);
  }

  /** The number occurs somewhere in a block's values. */
  predicate OccursIn(fields: Matrix, number: int) {
    exists p, q | 0 <= p < |fields| && 0 <= q < |fields[p]| :: fields[p][q] == number
  }

  /** The number occurs in column c. */
  predicate InColumn(d: Dim, m: Matrix, c: int, number: int)
    requires Shaped(d, m) && 0 <= c < GridSide(d)
  {
    exists i | 0 <= i < GridSide(d) :: m[i][c] == number
  }

  /** The number occurs in a cell of the block holding cell (r, c). */
  predicate InBlock(d: Dim, m: Matrix, r: int, c: int, number: int)
    requires Shaped(d, m) && 0 <= r && 0 <= c
  {
    exists i, j | 0 <= i < GridSide(d) && 0 <= j < GridSide(d) && DivB(d, i) == DivB(d, r) && DivB(d, j) == DivB(d, c) ::
      m[i][j] == number
  }

  /** No row, column or block peer of cell (r, c) holds the number. */
  predicate NoPeerHolds(d: Dim, m: Matrix, r: int, c: int, number: int)
    requires Shaped(d, m) && 0 <= r && 0 <= c
  {
    forall i, j | 0 <= i < GridSide(d) && 0 <= j < GridSide(d) && Peer(d, i, j, r, c) :: m[i][j] != number
  }

  /** Scanning the extracted block finds the number exactly when a cell of
      the block holding (r, c) holds it. */
  lemma BlockScan(d: Dim, m: Matrix, r: int, c: int, number: int)
    requires Shaped(d, m)
    requires 0 <= r < GridSide(d) && 0 <= c < GridSide(d)
    ensures 0 <= BlockOf(d, r, c) < GridSide(d)
    ensures OccursIn(GetBlock(d, m, BlockOf(d, r, c)).value, number) <==> InBlock(d, m, r, c, number)
  {
    SameBlock(d, r, c, r, c);
    var fields := GetBlock(d, m, BlockOf(d, r, c)).value;
    if OccursIn(fields, number) {
      var p, q :| 0 <= p < |fields| && 0 <= q < |fields[p]| && fields[p][q] == number;
      BlockEntryInBlock(d, m, r, c, p, q);
    }
    if InBlock(d, m, r, c, number) {
      var i, j :| 0 <= i < GridSide(d) && 0 <= j < GridSide(d) && DivB(d, i) == DivB(d, r) && DivB(d, j) == DivB(d, c) && m[i][j] == number;
      BlockCellInEntries(d, m, r, c, i, j);
    }
  }

  lemma BlockEntryInBlock(d: Dim, m: Matrix, r: int, c: int, p: int, q: int)
    requires Shaped(d, m)
    requires 0 <= r < GridSide(d) && 0 <= c < GridSide(d)
    requires 0 <= p < BlockSide(d) && 0 <= q < BlockSide(d)
    requires 0 <= BlockOf(d, r, c) < GridSide(d)
    ensures exists i, j | 0 <= i < GridSide(d) && 0 <= j < GridSide(d) && DivB(d, i) == DivB(d, r) && DivB(d, j) == DivB(d, c) ::
              m[i][j] == GetBlock(d, m, BlockOf(d, r, c)).value[p][q]
  {
    var k := BlockOf(d, r, c);
    var i, j := BlockPositionCell(d, k, p, q);
    BlockEntry(d, m, k, i, j);
    SameBlock(d, i, j, r, c);
  }

  lemma BlockCellInEntries(d: Dim, m: Matrix, r: int, c: int, i: int, j: int)
    requires Shaped(d, m)
    requires 0 <= r < GridSide(d) && 0 <= c < GridSide(d)
    requires 0 <= i < GridSide(d) && 0 <= j < GridSide(d)
    requires DivB(d, i) == DivB(d, r) && DivB(d, j) == DivB(d, c)
    ensures 0 <= BlockOf(d, r, c) < GridSide(d)
    ensures OccursIn(GetBlock(d, m, BlockOf(d, r, c)).value, m[i][j])
  {
    SameBlock(d, i, j, r, c);
    BlockEntry(d, m, BlockOf(d, r, c), i, j);
    BlockSplit(d, i);
    BlockSplit(d, j);
    var fields := GetBlock(d, m, BlockOf(d, r, c)).value;
    assert fields[ModB(d, i)][ModB(d, j)] == m[i][j];
  }

  /** The peers of a cell are its row, its column and its block. */
  lemma PeersByUnit(d: Dim, m: Matrix, r: int, c: int, number: int)
    requires Shaped(d, m)
    requires 0 <= r < GridSide(d) && 0 <= c < GridSide(d)
    ensures (number !in m[r] && !InColumn(d, m, c, number) && !InBlock(d, m, r, c, number))
            <==> NoPeerHolds(d, m, r, c, number)
  {
    if number in m[r] {
      var j :| 0 <= j < |m[r]| && m[r][j] == number;
      assert Peer(d, r, j, r, c);
    }
    if InColumn(d, m, c, number) {
      var i :| 0 <= i < GridSide(d) && m[i][c] == number;
      assert Peer(d, i, c, r, c);
    }
    if InBlock(d, m, r, c, number) {
      var i, j :| 0 <= i < GridSide(d) && 0 <= j < GridSide(d) && DivB(d, i) == DivB(d, r) && DivB(d, j) == DivB(d, c) && m[i][j] == number;
      assert Peer(d, i, j, r, c);
    }
    if !NoPeerHolds(d, m, r, c, number) {
      var i, j :| 0 <= i < GridSide(d) && 0 <= j < GridSide(d) && Peer(d, i, j, r, c) && m[i][j] == number;
      if i == r {
        assert m[r][j] == number;
      } else if j == c {
        assert m[i][c] == number;
      }
    }
  }

  /** isValidMove on a given matrix: a field outside 0..N²-1 or a number
      outside 1..N is refused; otherwise the move is valid exactly when no
      cell in the same row, column or block as the field already holds the
      number. Only the rules are checked, not whether the board stays solvable. */
  function IsValidMove(d: Dim, m: Matrix, field: int, number: int): (r: Result<bool, Error>)
    requires Shaped(d, m)
    ensures r.Failure? <==> !(0 <= field < Area(d)) || !(1 <= number <= GridSide(d))
    ensures r.Failure? && !(0 <= field < Area(d)) ==> r.error == InvalidFieldNumber
    ensures r.Failure? && 0 <= field < Area(d) ==> r.error == InvalidNumber
    ensures r.Success? ==>
              (r.value <==> NoPeerHolds(d, m, DivN(d, field), ModN(d, field), number))
  {
    var n := GridSide(d);
    if field < 0 || field >= Area(d) then Failure(InvalidFieldNumber)
    else if number > n || number < 1 then Failure(InvalidNumber)
    else
      FieldSplit(d, field);
      var row := DivN(d, field);
      var column := ModN(d, field);
      BlockScan(d, m, row, column, number);
      PeersByUnit(d, m, row, column, number);
      var blockFields := GetBlock(d, m, BlockOf(d, row, column)).value;
      Success(!OccursIn(blockFields, number) && number !in m[row] && !InColumn(d, m, column, number))
  }

  /** A number already in the target cell is never a valid move there. */
  lemma OccupiedNumberInvalid(d: Dim, m: Matrix, field: int)
    requires Shaped(d, m) && 0 <= field < Area(d)
    requires 1 <= Cell(d, m, field) <= GridSide(d)
    ensures IsValidMove(d, m, field, Cell(d, m, field)) == Success(false)
  {
    FieldSplit(d, field);
    assert Peer(d, DivN(d, field), ModN(d, field), DivN(d, field), ModN(d, field));
  }

  /** Filling an empty cell with a valid move keeps a consistent board consistent. */
  lemma ValidMoveKeepsConsistent(d: Dim, m: Matrix, f: int, v: int)
    requires Consistent(d, m) && 0 <= f < Area(d)
    requires Cell(d, m, f) == 0 && IsValidMove(d, m, f, v) == Success(true)
    ensures Consistent(d, Fill(d, m, f, v))
  {
    var n := GridSide(d);
    FillCells(d, m, f, v);
    var r, c := DivN(d, f), ModN(d, f);
    var x := Fill(d, m, f, v);
    forall i1, j1, i2, j2 |
      && 0 <= i1 < n && 0 <= j1 < n && 0 <= i2 < n && 0 <= j2 < n
      && (i1 != i2 || j1 != j2) && Peer(d, i1, j1, i2, j2) && x[i1][j1] != 0
      ensures x[i1][j1] != x[i2][j2]
    {
      if i1 == r && j1 == c {
        assert m[i2][j2] != v;
      } else if i2 == r && j2 == c {
        assert Peer(d, i1, j1, r, c);
        assert m[i1][j1] != v;
      }
    }
  }
}
