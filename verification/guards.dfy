/** The range checks of NormalSudoku.java as written. Each compares a
    quotient with `>` where `>=` was meant, so a short window of indices just
    past the end gets through the check and then fails on the array access
    instead of being refused with the intended message:
      - getNumberAtField and isValidMove let the fields N²..N²+N-1 through;
      - getBlock lets the blocks N..N+B-1 through.
    Outside those windows the methods as written answer as the corrected
    definitions NormalSudoku.NumberAtField, Rules.IsValidMove and
    Rules.GetBlock, which refuse every index out of range. */
module Guards {
  import opened Wrappers
  import opened Division
  import opened Geometry
  import opened Grid
  import opened Rules
  import Sizes
  import NormalSudoku

  /** The field check of getNumberAtField and isValidMove as written: the
      field is not negative and its quotient by N does not exceed N. */
  predicate FieldCheckPasses(d: Dim, field: int) {
    !(field < 0) && !(DivN(d, field) > GridSide(d))
  }

  /** The field check lets through exactly 0..N²+N-1, N fields more than
      there are. */
  lemma FieldCheckWindow(d: Dim, field: int)
    ensures FieldCheckPasses(d, field) <==> 0 <= field < Area(d) + GridSide(d)
  {
    if 0 <= field {
      QuotBound(field, GridSide(d), GridSide(d) + 1);
    }
  }

  /** getNumberAtField as written: the check, then matrix[f % N][f / N], where
      a column index of N is past the end of the row. */
  function NumberAtFieldAsWritten(s: NormalSudoku.Sudoku, field: int): (r: Result<int, Error>)
    requires NormalSudoku.Valid(s)
    ensures r.Success? ==> r == NormalSudoku.NumberAtField(s, field)
  {
    var d := Sizes.DimOf(s.size);
    if !FieldCheckPasses(d, field) then Failure(InvalidFieldNumber)
    else
      var row, column := ModN(d, field), DivN(d, field);
      if column >= GridSide(d) then Failure(ArrayIndexOutOfBounds)
      else
        FieldCheckWindow(d, field);
        Squares(d);
        assert field < Area(d) by { QuotBound(field, GridSide(d), GridSide(d)); }
        Success(s.matrix[row][column])
  }

  /** Field N² passes the check of getNumberAtField as written and then reads
      past the end of a row, where the corrected definition refuses it. */
  lemma NumberAtFieldPastEnd(s: NormalSudoku.Sudoku)
    requires NormalSudoku.Valid(s)
    ensures var d := Sizes.DimOf(s.size);
            FieldCheckPasses(d, Area(d))
    ensures NumberAtFieldAsWritten(s, Area(Sizes.DimOf(s.size))) == Failure(ArrayIndexOutOfBounds)
    ensures NormalSudoku.NumberAtField(s, Area(Sizes.DimOf(s.size))) == Failure(InvalidFieldNumber)
  {
    var d := Sizes.DimOf(s.size);
    Squares(d);
    FieldCheckWindow(d, Area(d));
    QuotRemUnique(GridSide(d), 0, GridSide(d));
  }

  /** Outside the window the method as written answers as the corrected one. */
  lemma NumberAtFieldAgrees(s: NormalSudoku.Sudoku, field: int)
    requires NormalSudoku.Valid(s)
    requires var d := Sizes.DimOf(s.size);
             !(Area(d) <= field < Area(d) + GridSide(d))
    ensures NumberAtFieldAsWritten(s, field) == NormalSudoku.NumberAtField(s, field)
  {
    var d := Sizes.DimOf(s.size);
    Squares(d);
    FieldCheckWindow(d, field);
    if 0 <= field < Area(d) {
      FieldSplit(d, field);
    }
  }

  /** isValidMove as written: the field check, the number check, then the
      block of the field's row and column fetched through getBlock as
      written. A row of N gives a block number of N or more, which the block
      check lets through and whose rows are past the end of the board. Once
      the block is fetched the row is below N, and the method is the
      corrected rule check. */
  function IsValidMoveAsWritten(d: Dim, m: Matrix, field: int, number: int): (r: Result<bool, Error>)
    requires Shaped(d, m)
    ensures r.Success? ==> r == IsValidMove(d, m, field, number)
  {
    if !FieldCheckPasses(d, field) then Failure(InvalidFieldNumber)
    else if number > GridSide(d) || number < 1 then Failure(InvalidNumber)
    else
      var row, column := DivN(d, field), ModN(d, field);
      var block := GetBlockAsWritten(d, m, BlockOf(d, row, column));
      if block.Failure? then Failure(block.error)
      else
        RowOfBlock(d, row, column);
        Squares(d);
        assert field < Area(d) by { QuotBound(field, GridSide(d), GridSide(d)); }
        IsValidMove(d, m, field, number)
  }

  /** A block number below N belongs to a row below N. */
  lemma RowOfBlock(d: Dim, r: int, c: int)
    requires 0 <= r && 0 <= c && BlockOf(d, r, c) < GridSide(d)
    ensures r < GridSide(d)
  {
    QuotBound(r, BlockSide(d), BlockSide(d));
    if DivB(d, r) > BlockSide(d) {
      TimesStep(BlockSide(d), DivB(d, r), BlockSide(d));
    }
  }

  /** Field N² with a number in range passes both checks of isValidMove as
      written and then fails on the board's bounds, where the corrected rule
      check refuses the field. */
  lemma ValidMovePastEnd(d: Dim, m: Matrix, number: int)
    requires Shaped(d, m) && 1 <= number <= GridSide(d)
    ensures FieldCheckPasses(d, Area(d))
    ensures IsValidMoveAsWritten(d, m, Area(d), number) == Failure(ArrayIndexOutOfBounds)
    ensures IsValidMove(d, m, Area(d), number) == Failure(InvalidFieldNumber)
  {
    FieldCheckWindow(d, Area(d));
    PastEndIndices(d);
    BlockPastEnd(d, m);
  }

  /** Field N² is row N, column 0, and its block number is N. */
  lemma PastEndIndices(d: Dim)
    ensures DivN(d, Area(d)) == GridSide(d) && ModN(d, Area(d)) == 0
    ensures BlockOf(d, GridSide(d), 0) == GridSide(d)
  {
    QuotRemUnique(GridSide(d), 0, GridSide(d));
    assert Area(d) == Times(GridSide(d), GridSide(d)) + 0;
    QuotRemUnique(BlockSide(d), 0, BlockSide(d));
    assert GridSide(d) == Times(BlockSide(d), BlockSide(d)) + 0;
    assert DivB(d, 0) == 0;
  }

  /** Outside the window the method as written answers as the corrected one. */
  lemma ValidMoveAgrees(d: Dim, m: Matrix, field: int, number: int)
    requires Shaped(d, m)
    requires !(Area(d) <= field < Area(d) + GridSide(d))
    ensures IsValidMoveAsWritten(d, m, field, number) == IsValidMove(d, m, field, number)
  {
    FieldCheckWindow(d, field);
    if 0 <= field < Area(d) && 1 <= number <= GridSide(d) {
      FieldSplit(d, field);
      var row, column := DivN(d, field), ModN(d, field);
      SameBlock(d, row, column, row, column);
      BlockAgrees(d, m, BlockOf(d, row, column));
    }
  }

  /** The block check of getBlock as written: the block number is not
      negative and its quotient by B does not exceed B. */
  predicate BlockCheckPasses(d: Dim, k: int) {
    !(k < 0) && !(DivB(d, k) > BlockSide(d))
  }

  /** The block check lets through exactly 0..N+B-1, B blocks more than
      there are. */
  lemma BlockCheckWindow(d: Dim, k: int)
    ensures BlockCheckPasses(d, k) <==> 0 <= k < GridSide(d) + BlockSide(d)
  {
    if 0 <= k {
      QuotBound(k, BlockSide(d), BlockSide(d) + 1);
    }
  }

  /** getBlock as written: the check, then the copy of B×B cells starting at
      row (k / B)·B, which for a block row of B is past the end of the board. */
  function GetBlockAsWritten(d: Dim, m: Matrix, k: int): (r: Result<Matrix, Error>)
    requires Shaped(d, m)
    ensures r.Success? ==> r == GetBlock(d, m, k)
  {
    if !BlockCheckPasses(d, k) then Failure(InvalidBlockNumber)
    else if DivB(d, k) >= BlockSide(d) then Failure(ArrayIndexOutOfBounds)
    else
      assert k < GridSide(d) by { QuotBound(k, BlockSide(d), BlockSide(d)); }
      GetBlock(d, m, k)
  }

  /** Block N passes the check of getBlock as written and then reads rows
      past the end of the board, where the corrected definition refuses it. */
  lemma BlockPastEnd(d: Dim, m: Matrix)
    requires Shaped(d, m)
    ensures BlockCheckPasses(d, GridSide(d))
    ensures GetBlockAsWritten(d, m, GridSide(d)) == Failure(ArrayIndexOutOfBounds)
    ensures GetBlock(d, m, GridSide(d)) == Failure(InvalidBlockNumber)
  {
    BlockCheckWindow(d, GridSide(d));
    QuotRemUnique(BlockSide(d), 0, BlockSide(d));
    assert GridSide(d) == Times(BlockSide(d), BlockSide(d)) + 0;
  }

  /** Outside the window the method as written answers as the corrected one. */
  lemma BlockAgrees(d: Dim, m: Matrix, k: int)
    requires Shaped(d, m)
    requires !(GridSide(d) <= k < GridSide(d) + BlockSide(d))
    ensures GetBlockAsWritten(d, m, k) == GetBlock(d, m, k)
  {
    BlockCheckWindow(d, k);
    if 0 <= k < GridSide(d) {
      BlockSplit(d, k);
    }
  }
}
