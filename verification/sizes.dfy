/** The size table of SudokuSize.java: six grid sizes, each N×N with square
    B×B blocks, and the field count per sudoku type. Math.sqrt(N) is replaced
    by the exact integer block side B. */
module Sizes {
  import opened Wrappers
  import Geometry

  datatype Size = Tiny | Normal | Large | Huge | Extreme | Enormous

  /** The two kinds of sudoku the field count distinguishes (SudokuType.java). */
  datatype SudokuType = NormalType | SamuraiType

  const AllSizes: seq<Size> := [Tiny, Normal, Large, Huge, Extreme, Enormous]

  /** The side length N of the grid (getNormalSize). */
  function NormalSize(sz: Size): (n: nat)
    ensures 4 <= n <= 49
    ensures sz == Tiny ==> n == 4
    ensures sz == Normal ==> n == 9
    ensures sz == Large ==> n == 16
    ensures sz == Huge ==> n == 25
    ensures sz == Extreme ==> n == 36
    ensures sz == Enormous ==> n == 49
  {
    match sz
    case Tiny => 4
    case Normal => 9
    case Large => 16
    case Huge => 25
    case Extreme => 36
    case Enormous => 49
  }

  /** The grid geometry of a size: its block side B, Math.sqrt of the grid
      side, so that the grid side is B·B. */
  function DimOf(sz: Size): (d: Geometry.Dim)
    ensures Geometry.GridSide(d) == NormalSize(sz)
  {
    match sz
    case Tiny => 2
    case Normal => 3
    case Large => 4
    case Huge => 5
    case Extreme => 6
    case Enormous => 7
  }

  /** The size whose grid side is n, if there is one: the switch on the
      matrix length in createSudokuFromMatrix. */
  function SizeOfSide(n: int): (r: Option<Size>)
    ensures r.Some? ==> NormalSize(r.value) == n
    ensures r.None? ==> forall sz: Size :: NormalSize(sz) != n
  {
    if n == 4 then Some(Tiny)
    else if n == 9 then Some(Normal)
    else if n == 16 then Some(Large)
    else if n == 25 then Some(Huge)
    else if n == 36 then Some(Extreme)
    else if n == 49 then Some(Enormous)
    else None
  }

  /** There are exactly six sizes, with distinct sides 4, 9, 16, 25, 36, 49,
      and the side determines the size. */
  lemma SixSizes()
    ensures |AllSizes| == 6
    ensures forall sz: Size :: sz in AllSizes
    ensures forall i, j | 0 <= i < j < |AllSizes| :: NormalSize(AllSizes[i]) < NormalSize(AllSizes[j])
    ensures forall sz: Size :: NormalSize(sz) in {4, 9, 16, 25, 36, 49}
  {
    forall sz: Size ensures sz in AllSizes {
      match sz
      case Tiny => assert AllSizes[0] == sz;
      case Normal => assert AllSizes[1] == sz;
      case Large => assert AllSizes[2] == sz;
      case Huge => assert AllSizes[3] == sz;
      case Extreme => assert AllSizes[4] == sz;
      case Enormous => assert AllSizes[5] == sz;
    }
  }

  /** Looking up the side of a size gives that size back. */
  lemma SizeOfSideRoundTrip(sz: Size)
    ensures SizeOfSide(NormalSize(sz)) == Some(sz)
  {
    match sz
    case Tiny =>
    case Normal =>
    case Large =>
    case Huge =>
    case Extreme =>
    case Enormous =>
  }

  /** The number of fields of a sudoku of this size and type (getFields): the
      N² fields of one grid for a normal sudoku; five overlapping grids that
      share four blocks of N fields for a samurai sudoku. */
  function Fields(sz: Size, t: SudokuType): (r: int)
    ensures t == NormalType ==> r == Geometry.Area(DimOf(sz))
    ensures t == SamuraiType ==> r == 5 * Geometry.Area(DimOf(sz)) - 4 * NormalSize(sz)
  {
    var n := NormalSize(sz);
    var b := Geometry.BlockSide(DimOf(sz));
    Geometry.Squares(DimOf(sz));
    match t
    case NormalType => n * n
    case SamuraiType => n * n * 5 - b * b * 4
  }
}
