/** NormalSudoku.java: a sudoku of one of the six sizes holding an N×N board
    indexed [row][column], 0 meaning an empty cell. It is built from a
    caller's matrix, read field by field, checked move by move, cut into
    blocks and solved by the exhaustive search of module Search. Boards are
    values, so every copy the source makes is a plain value here. */
module NormalSudoku {
  import opened Wrappers
  import opened Sizes
  import Geometry
  import opened Grid
  import opened Rules
  import opened Search
  import opened SearchProps

  /** A normal sudoku: its size and its board. */
  datatype Sudoku = Sudoku(size: Size, matrix: Matrix)

  /** The board is N×N for the sudoku's size. */
  predicate Valid(s: Sudoku) {
    Shaped(DimOf(s.size), s.matrix)
  }

  /** The constructor: an N×N board of empty cells. */
  function EmptySudoku(size: Size): (s: Sudoku)
    ensures s.size == size && Valid(s)
    ensures forall i, j | 0 <= i < NormalSize(size) && 0 <= j < NormalSize(size) :: s.matrix[i][j] == 0
  {
    var n := NormalSize(size);
    Sudoku(size, seq(n, _ => seq(n, _ => 0)))
  }

  /** The empty board breaks no rule and has no givens, so its completions
      are exactly the solved grids of its size. */
  lemma EmptyCompletions(size: Size, x: Matrix)
    ensures Consistent(DimOf(size), EmptySudoku(size).matrix) && InRange(DimOf(size), EmptySudoku(size).matrix)
    ensures IsCompletion(DimOf(size), EmptySudoku(size).matrix, x) <==>
              Full(DimOf(size), x) && Consistent(DimOf(size), x) && InRange(DimOf(size), x)
  {
  }

  /** clone: the board copied row by row; the copy holds the same values. */
  method Clone(s: Sudoku) returns (c: Sudoku)
    ensures c == s
  {
    var copy: Matrix := [];
    var j := 0;
    while j < |s.matrix|
      invariant 0 <= j <= |s.matrix|
      invariant copy == s.matrix[..j]
    {
      copy := copy + [s.matrix[j]];
      j := j + 1;
    }
    assert copy == s.matrix;
    c := Sudoku(s.size, copy);
  }

  /** createSudokuFromMatrix: the outer length must be one of the six grid
      sides and every row must have that same length; anything else is an
      invalid matrix size. The cell values are not checked. The sudoku gets a
      copy of the matrix with the same contents. */
  method CreateSudokuFromMatrix(matrix: Matrix) returns (r: Result<Sudoku, Error>)
    ensures r.Success? <==>
              && SizeOfSide(|matrix|).Some?
              && forall i | 0 <= i < |matrix| :: |matrix[i]| == |matrix|
    ensures r.Failure? ==> r.error == InvalidMatrixSize
    ensures r.Success? ==> Valid(r.value) && r.value.matrix == matrix && NormalSize(r.value.size) == |matrix|
  {
    var size := SizeOfSide(|matrix|);
    if size.None? {
      return Failure(InvalidMatrixSize);
    }
    var n := NormalSize(size.value);
    var i := 0;
    while i < |matrix|
      invariant 0 <= i <= |matrix|
      invariant forall k | 0 <= k < i :: |matrix[k]| == n
    {
      if |matrix[i]| != n {
        return Failure(InvalidMatrixSize);
      }
      i := i + 1;
    }
    var sudoku := Clone(Sudoku(size.value, matrix));
    return Success(sudoku);
  }

  /** getNumberAtField, with the range check refusing every field outside
      0..N²-1 (see Guards for the check as written): field f is read at row
      f % N, column f / N, that is, column by column. */
  function NumberAtField(s: Sudoku, field: int): (r: Result<int, Error>)
    requires Valid(s)
    ensures r.Failure? <==> !(0 <= field < NormalSize(s.size) * NormalSize(s.size))
    ensures r.Failure? ==> r.error == InvalidFieldNumber
  {
    var d := DimOf(s.size);
    Geometry.Squares(d);
    if field < 0 || field >= Geometry.Area(d) then Failure(InvalidFieldNumber)
    else
      Geometry.FieldSplit(d, field);
      Success(s.matrix[Geometry.ModN(d, field)][Geometry.DivN(d, field)])
  }

  /** Field r + c·N reads cell [r][c]: fields run down the columns. */
  lemma NumberAtFieldColumnMajor(s: Sudoku, r: int, c: int)
    requires Valid(s) && 0 <= r < NormalSize(s.size) && 0 <= c < NormalSize(s.size)
    ensures 0 <= r + c * NormalSize(s.size) < NormalSize(s.size) * NormalSize(s.size)
    ensures NumberAtField(s, r + c * NormalSize(s.size)) == Success(s.matrix[r][c])
  {
    var d := DimOf(s.size);
    Geometry.Squares(d);
    Geometry.WrittenOut(d, c);
    Geometry.FieldJoin(d, c, r);
    assert r + c * NormalSize(s.size) == Geometry.MulN(d, c) + r;
  }

  /** getNumberAtField read row by row, as the field diagram and isValidMove
      number the fields: field f is cell f of the solver. */
  function NumberAtFieldRowMajor(s: Sudoku, field: int): (r: Result<int, Error>)
    requires Valid(s)
    ensures r.Failure? <==> !(0 <= field < NormalSize(s.size) * NormalSize(s.size))
    ensures r.Failure? ==> r.error == InvalidFieldNumber
    ensures r.Success? ==> 0 <= field < Geometry.Area(DimOf(s.size)) && r.value == Cell(DimOf(s.size), s.matrix, field)
  {
    var d := DimOf(s.size);
    Geometry.Squares(d);
    if field < 0 || field >= Geometry.Area(d) then Failure(InvalidFieldNumber)
    else
      Geometry.FieldSplit(d, field);
      Success(s.matrix[Geometry.DivN(d, field)][Geometry.ModN(d, field)])
  }

  /** Field r·N + c reads cell [r][c]: fields run along the rows. */
  lemma NumberAtFieldRowMajorDiagram(s: Sudoku, r: int, c: int)
    requires Valid(s) && 0 <= r < NormalSize(s.size) && 0 <= c < NormalSize(s.size)
    ensures 0 <= r * NormalSize(s.size) + c < NormalSize(s.size) * NormalSize(s.size)
    ensures NumberAtFieldRowMajor(s, r * NormalSize(s.size) + c) == Success(s.matrix[r][c])
  {
    var d := DimOf(s.size);
    Geometry.Squares(d);
    Geometry.WrittenOut(d, r);
    Geometry.FieldJoin(d, r, c);
    assert r * NormalSize(s.size) + c == Geometry.MulN(d, r) + c;
  }

  /** A 4×4 board whose only given is a 1 in row 0, column 1 (field 1 of the
      diagram). */
  function CornerGiven(): (s: Sudoku)
    ensures Valid(s)
  {
    Sudoku(Tiny, [[0, 1, 0, 0], [0, 0, 0, 0], [0, 0, 0, 0], [0, 0, 0, 0]])
  }

  /** On that board getNumberAtField(1) as written reads row 1, column 0 and
      answers 0, while the diagram's field 1 holds the 1. */
  lemma AddressingDisagrees()
    ensures NumberAtField(CornerGiven(), 1) == Success(0)
    ensures NumberAtFieldRowMajor(CornerGiven(), 1) == Success(1)
  {
    NumberAtFieldColumnMajor(CornerGiven(), 1, 0);
    NumberAtFieldRowMajorDiagram(CornerGiven(), 0, 1);
  }

  /** The public isValidMove: the rule check on this sudoku's own board,
      which it leaves as it is. A field outside 0..N²-1 or a number outside
      1..N is refused; otherwise the move is valid exactly when the number is
      in none of row f / N, column f % N and their block. */
  function IsValidMoveAt(s: Sudoku, field: int, number: int): (r: Result<bool, Error>)
    requires Valid(s)
    ensures var n := NormalSize(s.size);
            r.Failure? <==> !(0 <= field < n * n) || !(1 <= number <= n)
    ensures var n := NormalSize(s.size);
            r == Success(true) <==>
              && 0 <= field < n * n && 1 <= number <= n
              && 0 <= field / n && 0 <= field % n
              && NoPeerHolds(DimOf(s.size), s.matrix, field / n, field % n, number)
  {
    var d := DimOf(s.size);
    Geometry.Squares(d);
    if 0 <= field then
      Geometry.WrittenOut(d, field);
      IsValidMove(d, s.matrix, field, number)
    else
      IsValidMove(d, s.matrix, field, number)
  }

  /** The public getBlock: the B×B values of block k of this sudoku's board,
      any block number outside 0..N-1 refused. */
  function Block(s: Sudoku, k: int): (r: Result<Matrix, Error>)
    requires Valid(s)
    ensures r.Failure? <==> !(0 <= k < NormalSize(s.size))
    ensures r.Failure? ==> r.error == InvalidBlockNumber
    ensures r.Success? ==>
              && |r.value| == Geometry.BlockSide(DimOf(s.size))
              && forall p | 0 <= p < Geometry.BlockSide(DimOf(s.size)) :: |r.value[p]| == Geometry.BlockSide(DimOf(s.size))
  {
    GetBlock(DimOf(s.size), s.matrix, k)
  }

  /** Position [p][q] of block k holds the cell p rows below and q columns
      right of the block's corner, row (k / B)·B and column (k % B)·B. */
  lemma BlockCells(s: Sudoku, k: int, p: int, q: int)
    requires Valid(s) && 0 <= k < NormalSize(s.size) && 0 <= p < Geometry.BlockSide(DimOf(s.size)) && 0 <= q < Geometry.BlockSide(DimOf(s.size))
    ensures var d := DimOf(s.size);
            && Geometry.MulB(d, Geometry.DivB(d, k)) + p < NormalSize(s.size)
            && Geometry.MulB(d, Geometry.ModB(d, k)) + q < NormalSize(s.size)
    ensures Block(s, k).Success?
    ensures var d := DimOf(s.size);
            Block(s, k).value[p][q] == s.matrix[Geometry.MulB(d, Geometry.DivB(d, k)) + p][Geometry.MulB(d, Geometry.ModB(d, k)) + q]
  {
    BlockCorner(DimOf(s.size), s.matrix, k, p, q);
  }

  /** solve(): the board on top of the solved stack, which is the last
      board the search pushed, or none when the stack is empty. Every
      answer is full and keeps the givens; from givens that break no rule it
      is a solution, and there is one exactly when the givens can be
      completed; it precedes every other completion in row-major order. Givens
      that break a rule are never repaired: the answer breaks it too, and a
      full board comes back unchanged, whether or not it obeys the rules. */
  method Solve(s: Sudoku) returns (r: Option<Sudoku>)
    requires Valid(s)
    ensures r.None? <==> Solutions(DimOf(s.size), s.matrix) == []
    ensures r.Some? ==>
              var xs := Solutions(DimOf(s.size), s.matrix);
              |xs| > 0 && r.value.matrix == xs[|xs| - 1]
    ensures r.Some? ==> r.value.size == s.size && Valid(r.value)
    ensures r.Some? ==> Full(DimOf(s.size), r.value.matrix) && Extends(DimOf(s.size), r.value.matrix, s.matrix)
    ensures Consistent(DimOf(s.size), s.matrix) && InRange(DimOf(s.size), s.matrix) ==>
              && (r.Some? <==> exists x :: IsCompletion(DimOf(s.size), s.matrix, x))
              && (r.Some? ==> IsCompletion(DimOf(s.size), s.matrix, r.value.matrix))
    ensures r.Some? ==>
              forall x | IsCompletion(DimOf(s.size), s.matrix, x) && x != r.value.matrix ::
                RowMajorLess(DimOf(s.size), r.value.matrix, x)
    ensures r.Some? && !Consistent(DimOf(s.size), s.matrix) ==> !Consistent(DimOf(s.size), r.value.matrix)
    ensures Full(DimOf(s.size), s.matrix) ==> r == Some(s)
  {
    var d := DimOf(s.size);
    SolveFacts(d, s.matrix);
    var solved := SolveAll(d, s.matrix);
    if |solved| == 0 {
      r := None;
    } else {
      r := Some(Sudoku(s.size, solved[|solved| - 1]));
    }
  }

  /** What the search's list of pushed boards says about the givens m: a
      full board is its own and only entry; from givens that break no rule
      the list is non-empty exactly when m can be completed; its last board
      is full, keeps the givens, is a solution when the givens break no rule,
      and precedes every other completion. */
  lemma SolveFacts(d: Geometry.Dim, m: Matrix)
    requires Shaped(d, m)
    ensures Full(d, m) ==> Solutions(d, m) == [m]
    ensures Consistent(d, m) && InRange(d, m) ==>
              ((exists x :: IsCompletion(d, m, x)) <==> |Solutions(d, m)| > 0)
    ensures |Solutions(d, m)| > 0 ==> LastSolution(d, m, Solutions(d, m)[|Solutions(d, m)| - 1])
  {
    if Full(d, m) {
      FullIsOwnSolution(d, m);
    }
    if Consistent(d, m) && InRange(d, m) {
      UniqueIffOnePushed(d, m);
    }
    if |Solutions(d, m)| > 0 {
      LastSolutionFacts(d, m);
    }
  }

  /** x is full, keeps the givens of m, is a solution when the givens break
      no rule, keeps every clash among the givens when they break one, and
      precedes every other completion of m. */
  ghost predicate LastSolution(d: Geometry.Dim, m: Matrix, x: Matrix) {
    && Full(d, x) && Extends(d, x, m)
    && (Consistent(d, m) && InRange(d, m) ==> IsCompletion(d, m, x))
    && (!Consistent(d, m) ==> !Consistent(d, x))
    && forall y | IsCompletion(d, m, y) && y != x :: RowMajorLess(d, x, y)
  }

  lemma LastSolutionFacts(d: Geometry.Dim, m: Matrix)
    requires Shaped(d, m) && |Solutions(d, m)| > 0
    ensures LastSolution(d, m, Solutions(d, m)[|Solutions(d, m)| - 1])
  {
    var xs := Solutions(d, m);
    var top := xs[|xs| - 1];
    assert top in xs;
    SolutionsExtend(d, m);
    ClashKept(d, top, m);
    if Consistent(d, m) && InRange(d, m) {
      Soundness(d, m);
    }
    forall y | IsCompletion(d, m, y) && y != top
      ensures RowMajorLess(d, top, y)
    {
      LastIsSmallest(d, m, y);
    }
  }

  /** hasUniqueSolution: the search pushed exactly one board. From givens
      that break no rule this holds exactly when they have one completion;
      a full board always has a unique solution, itself. */
  method HasUniqueSolution(s: Sudoku) returns (unique: bool)
    requires Valid(s)
    ensures unique <==> |Solutions(DimOf(s.size), s.matrix)| == 1
    ensures Consistent(DimOf(s.size), s.matrix) && InRange(DimOf(s.size), s.matrix) ==>
              (unique <==> UniqueCompletion(DimOf(s.size), s.matrix))
    ensures Full(DimOf(s.size), s.matrix) ==> unique
  {
    var d := DimOf(s.size);
    if Full(d, s.matrix) {
      FullIsOwnSolution(d, s.matrix);
    }
    if Consistent(d, s.matrix) && InRange(d, s.matrix) {
      UniqueIffOnePushed(d, s.matrix);
    }
    var solved := SolveAll(d, s.matrix);
    unique := |solved| == 1;
  }
}
