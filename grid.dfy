/** The 9x9 Sudoku grid and the constraint vocabulary the solver is specified with.
    A grid is a 9x9 matrix of cell values, 0 meaning an empty cell and 1..9 a placed
    digit. The solver keeps it in an `array2<int>` indexed `a[y, x]` (row y, column x);
    `Cells` gives the value of such an array, and everything below is stated on values. */
module Grid {

  const Size := 9
  const RegionSize := 3
  const Unset := 0
  const ValueCountSize := 10
  const ExpectedSquares := 81

  datatype Option<T> = None | Some(value: T)

  /** A cell position, column first as in the source's `int[]{x, y}`. */
  datatype Square = Square(x: int, y: int)

  type Grid = seq<seq<int>>

  /** Nine rows of nine cells. */
  predicate IsShape(g: Grid) {
    |g| == 9 && forall y :: 0 <= y < 9 ==> |g[y]| == 9
  }

  /** The grid invariant: nine rows of nine cells, each cell 0 (empty) or a digit 1..9. */
  predicate WellFormed(g: Grid) {
    IsShape(g) && forall y, x :: 0 <= y < 9 && 0 <= x < 9 ==> 0 <= g[y][x] <= 9
  }

  /** The same invariant, read off an array. */
  ghost predicate IsGridArray(a: array2<int>)
    reads a
  {
    a.Length0 == 9 && a.Length1 == 9 && WellFormed(Cells(a))
  }

  /** The value held by an array. */
  ghost function Cells(a: array2<int>): (g: Grid)
    reads a
    requires a.Length0 == 9 && a.Length1 == 9
    ensures IsShape(g)
    ensures forall y, x :: 0 <= y < 9 && 0 <= x < 9 ==> g[y][x] == a[y, x]
  {
    seq(9, y requires 0 <= y < 9 reads a => seq(9, x requires 0 <= x < 9 reads a => a[y, x]))
  }

  lemma GridsEqual(g: Grid, h: Grid)
    requires IsShape(g) && IsShape(h)
    requires forall y, x :: 0 <= y < 9 && 0 <= x < 9 ==> g[y][x] == h[y][x]
    ensures g == h
  {
    forall y | 0 <= y < 9
      ensures g[y] == h[y]
    {
      assert forall x :: 0 <= x < 9 ==> g[y][x] == h[y][x];
    }
  }

  lemma CellsEqual(a: array2<int>, g: Grid)
    requires a.Length0 == 9 && a.Length1 == 9 && IsShape(g)
    requires forall y, x :: 0 <= y < 9 && 0 <= x < 9 ==> a[y, x] == g[y][x]
    ensures Cells(a) == g
  {
    GridsEqual(Cells(a), g);
  }

  // ---------------------------------------------------------------- units

  /** Top-left corner of one of the nine 3x3 regions. */
  predicate IsCorner(c: Square) {
    0 <= c.x <= 6 && 0 <= c.y <= 6 && c.x % 3 == 0 && c.y % 3 == 0
  }

  /** The corner of the region that holds column x, row y (source:
      getStartCoordinatesOfContainingRegion). */
  function RegionStart(x: nat, y: nat): (c: Square)
    ensures c.x % 3 == 0 && c.y % 3 == 0
    ensures c.x <= x < c.x + 3 && c.y <= y < c.y + 3
    ensures x < 9 && y < 9 ==> IsCorner(c)
    ensures x % 3 == 0 && y % 3 == 0 ==> c == Square(x, y)
  {
    Square(x - x % RegionSize, y - y % RegionSize)
  }

  /** A region corner is determined by any cell of its block. */
  lemma CornerOfCell(c: Square, x: nat, y: nat)
    requires IsCorner(c)
    requires c.x <= x < c.x + 3 && c.y <= y < c.y + 3
    ensures RegionStart(x, y) == c
  {
  }

  function Row(g: Grid, y: int): seq<int>
    requires IsShape(g) && 0 <= y < 9
  {
    g[y]
  }

  function Column(g: Grid, x: int): (col: seq<int>)
    requires IsShape(g) && 0 <= x < 9
  {
    seq(9, y requires 0 <= y < 9 => g[y][x])
  }

  /** The nine cells of a region in row-major order: three slices of three rows. */
  function Region(g: Grid, c: Square): seq<int>
    requires IsShape(g) && IsCorner(c)
  {
    g[c.y][c.x..c.x + 3] + g[c.y + 1][c.x..c.x + 3] + g[c.y + 2][c.x..c.x + 3]
  }

  /** Cell (dx, dy) of the block is entry 3 * dy + dx of the region. */
  lemma RegionAt(g: Grid, c: Square, dy: nat, dx: nat)
    requires IsShape(g) && IsCorner(c) && dy < 3 && dx < 3
    ensures |Region(g, c)| == 9
    ensures Region(g, c)[3 * dy + dx] == g[c.y + dy][c.x + dx]
  {
  }

  /** The first 3 * dy + dx + 1 cells of a region extend the first 3 * dy + dx by cell
      (dx, dy) of the block. */
  lemma RegionPrefixStep(g: Grid, c: Square, dy: nat, dx: nat)
    requires IsShape(g) && IsCorner(c) && dy < 3 && dx < 3
    ensures Region(g, c)[..3 * dy + dx + 1] == Region(g, c)[..3 * dy + dx] + [g[c.y + dy][c.x + dx]]
  {
    RegionAt(g, c, dy, dx);
  }

  /** Number of occurrences of v in s. */
  function Count(s: seq<int>, v: int): (n: nat)
    ensures n <= |s|
    ensures n == 0 <==> v !in s
  {
    if |s| == 0 then 0
    else Count(s[..|s| - 1], v) + (if s[|s| - 1] == v then 1 else 0)
  }

  /** No nonzero value occurs twice in the unit. */
  predicate NoRepeats(u: seq<int>) {
    forall i, j :: 0 <= i < j < |u| && u[i] != 0 ==> u[i] != u[j]
  }

  // ---------------------------------------------------------------- whole grid

  /** Every row, every column and every region is free of repeated digits. */
  ghost predicate PuzzleValid(g: Grid)
    requires IsShape(g)
  {
    && (forall y :: 0 <= y < 9 ==> NoRepeats(Row(g, y)))
    && (forall x :: 0 <= x < 9 ==> NoRepeats(Column(g, x)))
    && (forall c: Square :: IsCorner(c) ==> NoRepeats(Region(g, c)))
  }

  /** The row, the column and the region of one cell are free of repeated digits. */
  predicate UnitsValidAt(g: Grid, x: nat, y: nat)
    requires IsShape(g) && x < 9 && y < 9
  {
    NoRepeats(Row(g, y)) && NoRepeats(Column(g, x)) && NoRepeats(Region(g, RegionStart(x, y)))
  }

  /** No cell is empty. */
  predicate Complete(g: Grid)
    requires IsShape(g)
  {
    forall y, x :: 0 <= y < 9 && 0 <= x < 9 ==> g[y][x] != Unset
  }

  /** The empty cells of a grid. */
  function EmptySquares(g: Grid): set<Square>
    requires IsShape(g)
  {
    set y, x | 0 <= y < 9 && 0 <= x < 9 && g[y][x] == Unset :: Square(x, y)
  }

  /** Digit v may be written at column x, row y: it occurs in none of the cell's row,
      column and region. */
  predicate Legal(g: Grid, x: nat, y: nat, v: int)
    requires IsShape(g) && x < 9 && y < 9
  {
    1 <= v <= 9 && v !in Row(g, y) && v !in Column(g, x) && v !in Region(g, RegionStart(x, y))
  }

  /** g with digit v written at column x, row y. */
  function Place(g: Grid, y: nat, x: nat, v: int): (h: Grid)
    requires IsShape(g) && x < 9 && y < 9
  {
    g[y := g[y][x := v]]
  }

  /** Every nonzero cell of g holds the same digit in c. */
  predicate Extends(c: Grid, g: Grid)
    requires IsShape(c) && IsShape(g)
  {
    forall y, x :: 0 <= y < 9 && 0 <= x < 9 && g[y][x] != Unset ==> c[y][x] == g[y][x]
  }

  /** c is a solution of g: a complete, valid grid that keeps every digit of g. */
  ghost predicate IsSolution(c: Grid, g: Grid) {
    IsShape(g) && WellFormed(c) && Complete(c) && PuzzleValid(c) && Extends(c, g)
  }

  /** No solution of g exists. */
  ghost predicate Unsolvable(g: Grid) {
    forall c :: !IsSolution(c, g)
  }

  // ---------------------------------------------------------------- lemmas

  /** Checking the units of all 81 cells, as the source does, decides validity of the
      whole grid: each row, column and region is checked at one of its cells at least. */
  lemma {:induction false} PuzzleValidIffUnitsValidEverywhere(g: Grid)
    requires IsShape(g)
    ensures PuzzleValid(g) <==> forall y: nat, x: nat :: y < 9 && x < 9 ==> UnitsValidAt(g, x, y)
  {
    if forall y: nat, x: nat :: y < 9 && x < 9 ==> UnitsValidAt(g, x, y) {
      forall y | 0 <= y < 9 ensures NoRepeats(Row(g, y)) {
        assert UnitsValidAt(g, 0, y);
      }
      forall x | 0 <= x < 9 ensures NoRepeats(Column(g, x)) {
        assert UnitsValidAt(g, x, 0);
      }
      forall c: Square | IsCorner(c) ensures NoRepeats(Region(g, c)) {
        CornerOfCell(c, c.x, c.y);
        assert UnitsValidAt(g, c.x, c.y);
      }
    }
  }

  /** Filling an empty cell with a digit leaves one empty cell fewer. */
  lemma PlaceFillsOneSquare(g: Grid, y: nat, x: nat, v: int)
    requires IsShape(g) && x < 9 && y < 9
    requires g[y][x] == Unset && v != Unset
    ensures EmptySquares(Place(g, y, x, v)) == EmptySquares(g) - {Square(x, y)}
    ensures |EmptySquares(Place(g, y, x, v))| == |EmptySquares(g)| - 1
  {
    var h := Place(g, y, x, v);
    assert Square(x, y) in EmptySquares(g);
    forall s | s in EmptySquares(h) ensures s in EmptySquares(g) - {Square(x, y)} {
      assert h[s.y][s.x] == Unset;
    }
    forall s | s in EmptySquares(g) - {Square(x, y)} ensures s in EmptySquares(h) {
      assert g[s.y][s.x] == Unset;
      assert h[s.y][s.x] == g[s.y][s.x];
    }
  }
}
