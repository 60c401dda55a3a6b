# A verified model of the normal Sudoku of btobastian's sudoku library

The library represents a Sudoku of one of six sizes: 4×4, 9×9, 16×16,
25×25, 36×36 and 49×49, with square blocks of 2×2 up to 7×7. A normal
sudoku (`NormalSudoku`) keeps an N×N `int` matrix indexed `[row][column]`,
where 0 marks an empty cell. Its core operations are modelled here as pure
Dafny functions and methods over immutable boards:

- building a sudoku from a caller's matrix (`createSudokuFromMatrix`);
- copying it (`clone`);
- reading a field (`getNumberAtField`);
- checking a move against the row, column and block rules (`isValidMove`);
- cutting out a block (`getBlock`);
- solving it by exhaustive depth-first search (`solve`, `hasUniqueSolution`);
- drawing a cell value as a character (`encodeNumber`);
- the size table with its field counts (`SudokuSize`).

Modules:

- `Sizes`: the six sizes, `getNormalSize`, the exact block side (`DimOf`), and `getFields`.
- `Division`, `Geometry`: quotient, remainder and product by the grid side N
  (`GridSide`, equal to `getNormalSize` through `Sizes.DimOf`) and the block
  side B, defined recursively so that proofs about them need
  no non-linear arithmetic. `Geometry.WrittenOut` ties them to Java's `/`, `%`
  and `*`.
- `Grid`: boards, the rules (`Consistent`), givens (`Extends`), full boards,
  and what a solution of given cells is (`IsCompletion`).
- `Rules`: `getBlock` and `isValidMove` on a matrix.
- `Search`: the private `solve(int[][])`. `Solutions` defines functionally the
  sequence of boards the search pushes onto its solved stack. The method
  `SolveAll`, with its explicit work stack, is proved to push exactly that
  sequence.
- `SearchProps`: what that sequence is:
  - every entry is full and keeps the givens;
  - from givens that break no rule, the entries are exactly the solutions;
  - the entries are pairwise distinct and come in descending row-major order.
- `NormalSudoku`: the public class: `Sudoku` values with construction,
  `clone`, field access, the public `isValidMove` and `getBlock`, `solve()`
  and `hasUniqueSolution()`.
- `Encoding`: `encodeNumber`, with Java's 32-bit `int` and 16-bit `char`
  written out.
- `Guards`: the range checks of `getNumberAtField`, `isValidMove` and
  `getBlock` exactly as written (see Findings).

Where the documentation and the code disagree, the model follows the code.
The comment on `Sudoku.solve()` (src/main/java/de/btobastian/sudoku/Sudoku.java:88-93)
says it returns `null` when the sudoku is not solvable. The search, however,
never checks the givens; it only checks each number it places:

- A full board that breaks the rules is pushed as its own solution, so
  `solve()` returns it unchanged and `hasUniqueSolution()` answers true.
- When a board whose givens clash gets an answer at all, the answer keeps
  the clash: the search fills empty cells and never repairs a given.

`NormalSudoku.Solve` states both facts. Its guarantee that the answer is a
solution is stated for givens that break no rule and hold numbers 0..N.

## Model

| member | source | states |
|---|---|---|
| Sizes.SixSizes | src/main/java/de/btobastian/sudoku/SudokuSize.java:8-36 | There are exactly six sizes. Their grid sides increase strictly and are 4, 9, 16, 25, 36 and 49. |
| Sizes.NormalSize | src/main/java/de/btobastian/sudoku/SudokuSize.java:11-60 | getNormalSize is the grid side of each constant: 4 for TINY, 9 for NORMAL, 16 for LARGE, 25 for HUGE, 36 for EXTREME and 49 for ENORMOUS. |
| Sizes.DimOf | src/main/java/de/btobastian/sudoku/SudokuSize.java:8-36 | Each size has a block side B from 2 to 7 (2x2 up to 7x7 blocks, as the size comments say), and B·B is its grid side getNormalSize, so Math.sqrt(N) is exact. |
| Sizes.SizeOfSide | src/main/java/de/btobastian/sudoku/NormalSudoku.java:29-51 | The switch on the matrix length finds the size with that side. It finds none exactly when no size has that side. |
| Sizes.SizeOfSideRoundTrip | src/main/java/de/btobastian/sudoku/NormalSudoku.java:29-51 | Looking up the side of a size gives that size back. |
| Sizes.Fields | src/main/java/de/btobastian/sudoku/SudokuSize.java:68-78 | getFields is N² for a normal sudoku and 5·N² − 4·N for a samurai sudoku, because B·B = N. |
| Geometry.Squares | src/main/java/de/btobastian/sudoku/SudokuSize.java:9-34 | The grid side is the square of the block side, and the field count is the square of the grid side. |
| Geometry.WrittenOut | src/main/java/de/btobastian/sudoku/NormalSudoku.java:143-145 | For non-negative operands, the row, column, block and position helpers are Java's /, % and * by N and by B. |
| Geometry.FieldSplit | src/main/java/de/btobastian/sudoku/NormalSudoku.java:143-145 | Every field 0..N²−1 splits into a row f / N below N and a column f % N, with f = row·N + column. |
| Geometry.FieldJoin | src/main/java/de/btobastian/sudoku/NormalSudoku.java:80-89 | A row and a column below N join into a field below N² that splits back into them, as numbered in the field diagram. |
| Geometry.BlockSplit | src/main/java/de/btobastian/sudoku/NormalSudoku.java:186-187 | Every index below N splits into a block index below B and a position below B. |
| Geometry.BlockJoin | src/main/java/de/btobastian/sudoku/NormalSudoku.java:229-232 | A block index and a position below B join into an index below N that splits back into them. |
| Grid.FillCells | src/main/java/de/btobastian/sudoku/NormalSudoku.java:148-154 | The copied board with the candidate set at the field's row and column differs from the popped board in that one cell only. |
| Grid.FillDecreasesZeros | src/main/java/de/btobastian/sudoku/NormalSudoku.java:146-154 | Filling an empty cell with a nonzero number lowers the number of empty cells by one, so the search terminates. |
| Rules.GetBlock | src/main/java/de/btobastian/sudoku/NormalSudoku.java:223-236 | getBlock on a matrix refuses exactly the block numbers outside 0..N−1 (see Findings). Otherwise it returns a B×B array in which every cell (i, j) of block k sits at [i mod B][j mod B]. |
| Rules.BlockCorner | src/main/java/de/btobastian/sudoku/NormalSudoku.java:229-234 | Position [p][q] of block k holds the cell at row (k / B)·B + p and column (k % B)·B + q. |
| Rules.BlockPositionCell | src/main/java/de/btobastian/sudoku/NormalSudoku.java:229-234 | Every position of a block is filled from a cell of that block. |
| Rules.TopLeftBlock | src/main/java/de/btobastian/sudoku/NormalSudoku.java:223-236 | Block 0 is the top-left B×B sub-grid. |
| Rules.BottomRightBlock | src/main/java/de/btobastian/sudoku/NormalSudoku.java:223-236 | Block N−1 is the bottom-right B×B sub-grid. |
| Rules.SameBlock | src/main/java/de/btobastian/sudoku/NormalSudoku.java:186-188 | Two cells get the same block number exactly when they share both a block row and a block column. That number is below N. |
| Rules.BlockScan | src/main/java/de/btobastian/sudoku/NormalSudoku.java:185-195 | Scanning the fetched block finds the number exactly when some cell of the field's block holds it. |
| Rules.PeersByUnit | src/main/java/de/btobastian/sudoku/NormalSudoku.java:185-209 | The row, column and block scans all come up empty exactly when no peer of the cell holds the number. |
| Rules.IsValidMove | src/main/java/de/btobastian/sudoku/NormalSudoku.java:175-213 | isValidMove on a matrix refuses a field outside 0..N²−1 (see Findings) or a number outside 1..N. Otherwise the move is valid exactly when no cell in row f / N, column f % N or their block holds the number. |
| Rules.OccupiedNumberInvalid | src/main/java/de/btobastian/sudoku/NormalSudoku.java:175-213 | A number already in the target cell is never a valid move there. |
| Rules.ValidMoveKeepsConsistent | src/main/java/de/btobastian/sudoku/NormalSudoku.java:152-154 | Putting a valid move into an empty cell of a board that breaks no rule gives a board that breaks no rule. |
| Search.AllowedIsValidMove | src/main/java/de/btobastian/sudoku/NormalSudoku.java:152 | The search's candidate test is exactly isValidMove answering true. |
| Search.FirstEmptyFromSkips | src/main/java/de/btobastian/sudoku/NormalSudoku.java:143-158 | The field scan skips only filled fields before it stops. |
| Search.FirstEmptySpec | src/main/java/de/btobastian/sudoku/NormalSudoku.java:143-158 | The scan finds no empty field exactly on a full board. Every field before the one it finds is filled, in row-major order. |
| Search.FullByFields | src/main/java/de/btobastian/sudoku/NormalSudoku.java:143-146 | A board is full exactly when every field, read row by row, is nonzero. |
| Search.Children | src/main/java/de/btobastian/sudoku/NormalSudoku.java:147-156 | The boards pushed after trying candidates 1..i: each is the popped board with a valid candidate up to i in the branch field, and their candidates strictly increase along the stack. |
| Search.ChildrenAre | src/main/java/de/btobastian/sudoku/NormalSudoku.java:147-156 | The copy with candidate v is pushed exactly when v is in 1..i and is a valid move on the popped board. |
| Search.PushCandidates | src/main/java/de/btobastian/sudoku/NormalSudoku.java:147-156 | One branching step leaves the stack it was given and puts exactly the children on top: a copy of the popped board for each valid candidate 1..N, in ascending order. Everything still pending then starts with the completions below N, N−1, ..., 1. |
| Search.PopStep | src/main/java/de/btobastian/sudoku/NormalSudoku.java:141-162 | One round of the loop keeps this invariant: the solved stack followed by the completions still pending equals the full enumeration. It also shrinks the search tree left to visit. |
| Search.SolveAll | src/main/java/de/btobastian/sudoku/NormalSudoku.java:137-164 | The private solve pushes onto the solved stack exactly the enumeration Solutions of the input, in order. |
| SearchProps.FullIsOwnSolution | src/main/java/de/btobastian/sudoku/NormalSudoku.java:143-161 | A board with no empty cell is its own and only solution, whatever it holds. |
| SearchProps.ChildExtends | src/main/java/de/btobastian/sudoku/NormalSudoku.java:152-154 | A completion below a pushed child keeps the parent's givens and holds the child's candidate. |
| SearchProps.SolutionsExtend | src/main/java/de/btobastian/sudoku/NormalSudoku.java:141-161 | Every board on the solved stack is full and keeps every given of the input. |
| SearchProps.SolutionsObeyRules | src/main/java/de/btobastian/sudoku/NormalSudoku.java:141-161 | From givens that break no rule and hold numbers 0..N, every pushed board breaks no rule. |
| SearchProps.Soundness | src/main/java/de/btobastian/sudoku/NormalSudoku.java:129-136 | From such givens, every board on the solved stack is a solution that keeps the givens. |
| SearchProps.CompletionValueAllowed | src/main/java/de/btobastian/sudoku/NormalSudoku.java:152 | The value any completion holds at the branch field is a valid move on the parent board. |
| SearchProps.Completeness | src/main/java/de/btobastian/sudoku/NormalSudoku.java:129-136 | Every completion of the input is pushed onto the solved stack, whatever the input holds. |
| SearchProps.RowMajorIrreflexive | src/main/java/de/btobastian/sudoku/NormalSudoku.java:147-156 | No board precedes itself in row-major order. |
| SearchProps.OrderedAtBranch | src/main/java/de/btobastian/sudoku/NormalSudoku.java:147-156 | Two completions keeping the givens, whose fields before the branch field are all given, are ordered by their values at that field. |
| SearchProps.SolutionsDescending | src/main/java/de/btobastian/sudoku/NormalSudoku.java:147-156 | Candidates are pushed 1..N and popped N..1, so every board on the solved stack comes after every board pushed after it. |
| SearchProps.DescendingDistinct | src/main/java/de/btobastian/sudoku/NormalSudoku.java:152-154 | The boards on the solved stack are pairwise distinct. |
| SearchProps.UniqueIffOnePushed | src/main/java/de/btobastian/sudoku/NormalSudoku.java:112-116 | From givens that break no rule, a completion exists exactly when the stack is non-empty. There is exactly one completion exactly when the stack holds one board. |
| SearchProps.LastIsSmallest | src/main/java/de/btobastian/sudoku/NormalSudoku.java:101-106 | The board on top of the solved stack precedes every other completion in row-major order. |
| NormalSudoku.EmptySudoku | src/main/java/de/btobastian/sudoku/NormalSudoku.java:14-17 | A new sudoku has an N×N board of empty cells. |
| NormalSudoku.EmptyCompletions | src/main/java/de/btobastian/sudoku/NormalSudoku.java:14-17 | The empty board breaks no rule. Its completions are exactly the solved grids of its size. |
| NormalSudoku.Clone | src/main/java/de/btobastian/sudoku/NormalSudoku.java:64-73 | clone copies the board row by row into a sudoku with the same size and the same contents. |
| NormalSudoku.CreateSudokuFromMatrix | src/main/java/de/btobastian/sudoku/NormalSudoku.java:28-62 | Accepts exactly an outer length of one of the six sides with every row of that same length. Anything else is refused as an invalid matrix size. Cell values are not checked, and the sudoku holds a copy with the same contents. |
| NormalSudoku.NumberAtField | src/main/java/de/btobastian/sudoku/NormalSudoku.java:90-98 | getNumberAtField refuses exactly the fields outside 0..N²−1 (see Findings). |
| NormalSudoku.NumberAtFieldColumnMajor | src/main/java/de/btobastian/sudoku/NormalSudoku.java:92-97 | Field r + c·N reads cell [r][c], so fields run down the columns. |
| NormalSudoku.NumberAtFieldRowMajor | src/main/java/de/btobastian/sudoku/NormalSudoku.java:80-89 | Read row by row, as the diagram numbers the fields, field f gives the cell the solver and isValidMove call field f. |
| NormalSudoku.NumberAtFieldRowMajorDiagram | src/main/java/de/btobastian/sudoku/NormalSudoku.java:80-89 | In the diagram's numbering, field r·N + c is cell [r][c]. |
| NormalSudoku.AddressingDisagrees | src/main/java/de/btobastian/sudoku/NormalSudoku.java:80-97 | On a 4×4 board with a single 1 at row 0, column 1, getNumberAtField(1) answers 0, while the diagram's field 1 holds the 1. |
| NormalSudoku.IsValidMoveAt | src/main/java/de/btobastian/sudoku/NormalSudoku.java:75-78 | The public isValidMove refuses exactly a field outside 0..N²−1 or a number outside 1..N. It answers true exactly when no cell in row f / N, column f % N or their block holds the number. |
| NormalSudoku.Block | src/main/java/de/btobastian/sudoku/NormalSudoku.java:125-127 | The public getBlock refuses exactly the block numbers outside 0..N−1. Otherwise it returns a B×B array. |
| NormalSudoku.BlockCells | src/main/java/de/btobastian/sudoku/NormalSudoku.java:125-127 | Position [p][q] of block k holds the cell p rows below and q columns right of the block's corner. |
| NormalSudoku.Solve | src/main/java/de/btobastian/sudoku/NormalSudoku.java:100-110 | solve() returns nothing exactly when the solved stack is empty, and otherwise the board on top of it, the last one the search pushed. Any answer is full and keeps the givens. From givens that break no rule the answer is a solution, and there is one exactly when a completion exists. The answer precedes every other completion in row-major order. A full board comes back unchanged, and givens that break a rule are never repaired. |
| NormalSudoku.SolveFacts | src/main/java/de/btobastian/sudoku/NormalSudoku.java:100-164 | The facts solve() rests on: a full board's enumeration is itself, an enumeration exists exactly when a completion exists, and the facts about its last board. |
| NormalSudoku.LastSolutionFacts | src/main/java/de/btobastian/sudoku/NormalSudoku.java:100-106 | The top of the solved stack is full, keeps the givens, is a solution when the givens break no rule, breaks a rule when they do, and precedes every other completion. |
| Grid.ClashKept | src/main/java/de/btobastian/sudoku/NormalSudoku.java:147-156 | The search only ever fills empty cells, so any board that keeps the givens keeps every clash between them: two peers holding the same given number still hold it. |
| NormalSudoku.HasUniqueSolution | src/main/java/de/btobastian/sudoku/NormalSudoku.java:112-116 | hasUniqueSolution holds exactly when the solved stack holds one board. From givens that break no rule, that means exactly one completion exists. A full board always has a unique solution. |
| Encoding.EncodeNumber | src/main/java/de/btobastian/sudoku/NormalSudoku.java:242-252 | Negative numbers are refused. 0..9 become '0'..'9', and n ≥ 10 becomes 'A' + (n − 10) modulo 2^16 after the 32-bit wrap-around and the char cast. |
| Encoding.DecodeDigit | src/main/java/de/btobastian/sudoku/NormalSudoku.java:238-241 | A digit or upper-case letter stands for a value 0..35. |
| Encoding.EncodeDecode | src/main/java/de/btobastian/sudoku/NormalSudoku.java:238-252 | The numbers 0..35 are drawn as digits and letters that read back as themselves. |
| Encoding.DecodeEncode | src/main/java/de/btobastian/sudoku/NormalSudoku.java:238-252 | Every digit and upper-case letter is the drawing of the value it stands for. |
| Encoding.EncodeInjective | src/main/java/de/btobastian/sudoku/NormalSudoku.java:242-252 | Distinct numbers in 0..65528 are drawn as distinct characters. |
| Encoding.EncodeWrapsAround | src/main/java/de/btobastian/sudoku/NormalSudoku.java:251 | 65529 is drawn as '0', the same character as 0, so the injectivity bound is tight. |
| Encoding.PastTheLetters | src/main/java/de/btobastian/sudoku/NormalSudoku.java:251 | The values 36..49 of a 49×49 board are drawn past 'Z', as characters that stand for no value. |
| Guards.FieldCheckWindow | src/main/java/de/btobastian/sudoku/NormalSudoku.java:92-96 | The field check as written lets through exactly 0..N²+N−1. |
| Guards.NumberAtFieldAsWritten | src/main/java/de/btobastian/sudoku/NormalSudoku.java:90-98 | getNumberAtField as written. Whenever it returns a value, that value agrees with the corrected NumberAtField. |
| Guards.NumberAtFieldPastEnd | src/main/java/de/btobastian/sudoku/NormalSudoku.java:94-97 | Field N² passes the check as written and then reads past the end of a row. The corrected definition refuses it. |
| Guards.NumberAtFieldAgrees | src/main/java/de/btobastian/sudoku/NormalSudoku.java:90-98 | Outside the fields N²..N²+N−1, getNumberAtField as written answers as the corrected one. |
| Guards.IsValidMoveAsWritten | src/main/java/de/btobastian/sudoku/NormalSudoku.java:175-213 | isValidMove as written, with its block fetched through getBlock as written. Whenever it answers, the answer agrees with the corrected rule check. |
| Guards.ValidMovePastEnd | src/main/java/de/btobastian/sudoku/NormalSudoku.java:176-188 | Field N² with a number in range passes both checks as written and then fails on the board's bounds inside getBlock. The corrected check refuses the field. |
| Guards.ValidMoveAgrees | src/main/java/de/btobastian/sudoku/NormalSudoku.java:175-213 | Outside the fields N²..N²+N−1, isValidMove as written answers as the corrected one. |
| Guards.BlockCheckWindow | src/main/java/de/btobastian/sudoku/NormalSudoku.java:224-228 | The block check as written lets through exactly 0..N+B−1. |
| Guards.GetBlockAsWritten | src/main/java/de/btobastian/sudoku/NormalSudoku.java:223-236 | getBlock as written. Whenever it returns a block, that block agrees with the corrected GetBlock. |
| Guards.BlockPastEnd | src/main/java/de/btobastian/sudoku/NormalSudoku.java:226-232 | Block N passes the check as written and then reads rows past the end of the board. The corrected definition refuses it. |
| Guards.BlockAgrees | src/main/java/de/btobastian/sudoku/NormalSudoku.java:223-236 | Outside the blocks N..N+B−1, getBlock as written answers as the corrected one. |

## Left out

- `toString` (src/main/java/de/btobastian/sudoku/NormalSudoku.java:254-313) is not modelled, because it is text layout. The one piece of logic it relies on, `encodeNumber`, is modelled.
- The abstract class `Sudoku`, its constructor and its getters are left out. They only store the type and the size.
- `SudokuDifficulty` is left out: the core never uses it.
- `SudokuType` is modelled as its two values, so the `default` branch of `getFields` (which returns −1) cannot be reached in the model.
- JVM exceptions are modelled as `Failure` values of `Grid.Error`. A `null` matrix or a `null` row cannot arise, because a Dafny sequence is never null.
- Object identity and aliasing are left out. Boards are values, so every copy the source makes, and the fresh object `solve()` returns, is a value here.
- `java.util.Stack` is a Dafny sequence whose top is its last element.
- `Math.sqrt` of the grid side is replaced by the exact block side B (`Sizes.DimOf`), because every grid side is a perfect square below 2^53.
- Running time is not modelled. The search is exponential, and only its termination is proved, through the number of empty cells.
- 32-bit overflow is written out only in `encodeNumber`. Elsewhere the arithmetic is quotients and remainders of `int` field and block numbers, which cannot overflow, and `getFields`, whose largest intermediate value is 49·49·5 = 12005 (the largest value it returns is 11809).
- Encoding.EncodeInjective: proved only for 0..65528, because `(char)` keeps the low 16 bits and 65529 is drawn as '0' (`Encoding.EncodeWrapsAround`). The cells the search fills hold 1..N ≤ 49, but `createSudokuFromMatrix` does not check the values a caller supplies, and `toString` draws every nonzero cell, so a supplied 65529 is drawn like 0.

## Findings

`NormalSudoku.NumberAtField` appears twice below. It keeps the source's
column-by-column reading and refuses every field outside 0..N²−1, so it is
the corrected definition of the range check and the as-written definition
of the addressing.

| source | as written | input that shows it | evidently intended | confidence | as-written member | corrected member |
|---|---|---|---|---|---|---|
| src/main/java/de/btobastian/sudoku/NormalSudoku.java:94 | `column > N` lets the fields N²..N²+N−1 through the check; the read then fails on the array bounds | field 16 on a 4×4 board | `column >= N`, refusing every field from N² up with "Invalid field number!" | not executed; high | Guards.NumberAtFieldAsWritten | NormalSudoku.NumberAtField |
| src/main/java/de/btobastian/sudoku/NormalSudoku.java:178 | `row > N` lets the fields N²..N²+N−1 through; the block fetch then fails on the array bounds | field 16 with number 1 on a 4×4 board | `row >= N`, refusing those fields with "Invalid field number!" | not executed; high | Guards.IsValidMoveAsWritten | Rules.IsValidMove |
| src/main/java/de/btobastian/sudoku/NormalSudoku.java:226 | `row > sqrt(N)` lets the blocks N..N+B−1 through; the copy then reads rows past the end of the board | block 4 on a 4×4 board | `row >= sqrt(N)`, refusing every block from N up with "Invalid block number!" | not executed; high | Guards.GetBlockAsWritten | Rules.GetBlock |
| src/main/java/de/btobastian/sudoku/NormalSudoku.java:92-93 | `getNumberAtField` takes the row from `field % N` and the column from `field / N`, so fields run down the columns. The field diagram, `isValidMove` and the solver all number fields row by row | a 4×4 board holding only a 1 at row 0, column 1: `getNumberAtField(1)` answers 0, while the diagram's field 1 holds the 1 | row `field / N`, column `field % N`, as at lines 80-89 | not executed; medium (the transposed reading could be deliberate) | NormalSudoku.NumberAtField | NormalSudoku.NumberAtFieldRowMajor |
