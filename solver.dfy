/** The depth-first backtracking search. It works on the grid in place: at the first
    empty cell (row-major order) it writes each candidate digit in ascending order and
    recurses, stops at the first complete grid, and on exhaustion resets the cell to 0
    so that the caller sees the grid exactly as it was. */
module Solver {
  import opened Grid
  import opened Queries

  /** No entry of u is v, and u had no repeated digit: writing v anywhere keeps that. */
  lemma NoRepeatsUpdate(u: seq<int>, k: nat, v: int)
    requires k < |u| && NoRepeats(u) && v !in u
    ensures NoRepeats(u[k := v])
  {
    var w := u[k := v];
    forall i, j | 0 <= i < j < |w| && w[i] != 0 ensures w[i] != w[j] {
      if i != k && j != k {
        assert w[i] == u[i] && w[j] == u[j];
      } else if i == k {
        assert w[j] == u[j];
      } else {
        assert w[i] == u[i];
      }
    }
  }

  lemma ColumnOfPlace(g: Grid, y: nat, x: nat, v: int, column: nat)
    requires IsShape(g) && x < 9 && y < 9 && column < 9
    ensures Column(Place(g, y, x, v), column) ==
              if column == x then Column(g, column)[y := v] else Column(g, column)
  {
  }

  /** Entry k of a region, located without division: the block is read row by row. */
  lemma RegionEntry(g: Grid, c: Square, k: nat)
    requires IsShape(g) && IsCorner(c) && k < 9
    ensures k < 3 ==> Region(g, c)[k] == g[c.y][c.x + k]
    ensures 3 <= k < 6 ==> Region(g, c)[k] == g[c.y + 1][c.x + k - 3]
    ensures 6 <= k ==> Region(g, c)[k] == g[c.y + 2][c.x + k - 6]
  {
    if k < 3 {
      RegionAt(g, c, 0, k);
    } else if k < 6 {
      RegionAt(g, c, 1, k - 3);
    } else {
      RegionAt(g, c, 2, k - 6);
    }
  }

  /** Writing a cell changes the region that holds it at that cell's entry, and no
      other region. */
  lemma RegionOfPlace(g: Grid, y: nat, x: nat, v: int, c: Square)
    requires IsShape(g) && x < 9 && y < 9 && IsCorner(c)
    ensures c == RegionStart(x, y) ==>
              Region(Place(g, y, x, v), c) == Region(g, c)[3 * (y - c.y) + (x - c.x) := v]
    ensures c != RegionStart(x, y) ==> Region(Place(g, y, x, v), c) == Region(g, c)
  {
    var h := Place(g, y, x, v);
    var r := RegionStart(x, y);
    forall k | 0 <= k < 9
      ensures Region(h, c)[k] == if c == r && k == 3 * (y - c.y) + (x - c.x) then v else Region(g, c)[k]
    {
      RegionEntry(h, c, k);
      RegionEntry(g, c, k);
      if c.x <= x < c.x + 3 && c.y <= y < c.y + 3 {
        CornerOfCell(c, x, y);
      }
    }
    RegionAt(g, c, 0, 0);
    RegionAt(h, c, 0, 0);
  }

  /** Writing a legal digit into an empty cell of a valid grid keeps it valid: this is
      why the search does not re-check validity after each placement. */
  lemma PlacePreservesValid(g: Grid, y: nat, x: nat, v: int)
    requires IsShape(g) && x < 9 && y < 9
    requires PuzzleValid(g) && Legal(g, x, y, v)
    ensures PuzzleValid(Place(g, y, x, v))
  {
    var h := Place(g, y, x, v);
    forall row | 0 <= row < 9 ensures NoRepeats(Row(h, row)) {
      if row == y {
        NoRepeatsUpdate(Row(g, y), x, v);
      } else {
        assert Row(h, row) == Row(g, row);
      }
    }
    forall column | 0 <= column < 9 ensures NoRepeats(Column(h, column)) {
      ColumnOfPlace(g, y, x, v, column);
      if column == x {
        NoRepeatsUpdate(Column(g, x), y, v);
      }
    }
    forall c: Square | IsCorner(c) ensures NoRepeats(Region(h, c)) {
      RegionOfPlace(g, y, x, v, c);
      if c == RegionStart(x, y) {
        RegionAt(g, c, 0, 0);
        NoRepeatsUpdate(Region(g, c), 3 * (y - c.y) + (x - c.x), v);
      }
    }
  }

  /** In a solution of g, the digit at an empty cell of g is one of that cell's legal
      digits in g: every digit g already holds in the cell's row, column or region is
      held by the solution in another cell of the same unit. */
  lemma SolutionDigitIsLegal(c: Grid, g: Grid, x: nat, y: nat)
    requires IsShape(g) && x < 9 && y < 9 && g[y][x] == Unset
    ensures IsSolution(c, g) ==> Legal(g, x, y, c[y][x])
  {
    if IsSolution(c, g) {
      SolutionDigitNotInRow(c, g, x, y);
      SolutionDigitNotInColumn(c, g, x, y);
      SolutionDigitNotInRegion(c, g, x, y);
    }
  }

  lemma SolutionDigitNotInRow(c: Grid, g: Grid, x: nat, y: nat)
    requires IsShape(g) && x < 9 && y < 9 && g[y][x] == Unset
    requires IsSolution(c, g)
    ensures 1 <= c[y][x] <= 9 && c[y][x] !in Row(g, y)
  {
    var v := c[y][x];
    var u := Row(c, y);
    assert NoRepeats(u);
    forall j | 0 <= j < 9 ensures g[y][j] != v {
      if j < x {
        assert u[j] != 0;
      } else if j > x {
        assert u[x] != 0;
      }
    }
  }

  lemma SolutionDigitNotInColumn(c: Grid, g: Grid, x: nat, y: nat)
    requires IsShape(g) && x < 9 && y < 9 && g[y][x] == Unset
    requires IsSolution(c, g)
    ensures c[y][x] !in Column(g, x)
  {
    var v := c[y][x];
    var u := Column(c, x);
    assert NoRepeats(u);
    assert u[y] == v && v != 0;
    forall i | 0 <= i < 9 ensures Column(g, x)[i] != v {
      assert Column(g, x)[i] == g[i][x];
      if g[i][x] != Unset {
        assert u[i] == g[i][x];
        if i < y {
          assert u[i] != 0;
        }
      }
    }
  }

  lemma SolutionDigitNotInRegion(c: Grid, g: Grid, x: nat, y: nat)
    requires IsShape(g) && x < 9 && y < 9 && g[y][x] == Unset
    requires IsSolution(c, g)
    ensures c[y][x] !in Region(g, RegionStart(x, y))
  {
    var v := c[y][x];
    var r := RegionStart(x, y);
    var u := Region(c, r);
    assert NoRepeats(u);
    var k0 := 3 * (y - r.y) + (x - r.x);
    RegionAt(c, r, y - r.y, x - r.x);
    RegionAt(g, r, y - r.y, x - r.x);
    assert u[k0] == v && v != 0;
    forall k | 0 <= k < 9 ensures Region(g, r)[k] != v {
      RegionEntry(g, r, k);
      RegionEntry(c, r, k);
      if k != k0 {
        assert u[k] != 0;
        if k < k0 {
          assert u[k] != u[k0];
        } else {
          assert u[k0] != u[k];
        }
      }
    }
  }

  /** A solution of g that holds v at an empty cell of g is a solution of g with v
      written there. */
  lemma SolutionOfPlaced(c: Grid, g: Grid, x: nat, y: nat, v: int)
    requires IsShape(g) && x < 9 && y < 9 && g[y][x] == Unset
    ensures IsSolution(c, g) && c[y][x] == v ==> IsSolution(c, Place(g, y, x, v))
  {
  }

  /** No solution of g holds any of the digits vs at column x, row y. */
  ghost predicate Excluded(g: Grid, x: nat, y: nat, vs: seq<int>)
    requires IsShape(g) && x < 9 && y < 9
  {
    forall c :: IsSolution(c, g) ==> c[y][x] !in vs
  }

  /** A candidate whose placement leads to no solution is held at that cell by no
      solution, so it joins the digits already excluded there. */
  lemma FailedCandidate(g: Grid, x: nat, y: nat, vs: seq<int>, v: int)
    requires IsShape(g) && x < 9 && y < 9 && g[y][x] == Unset
    requires Excluded(g, x, y, vs)
    requires Unsolvable(Place(g, y, x, v))
    ensures Excluded(g, x, y, vs + [v])
  {
    forall c | IsSolution(c, g) ensures c[y][x] !in vs + [v] {
      SolutionOfPlaced(c, g, x, y, v);
    }
  }

  /** When every legal digit of an empty cell has failed, the grid has no solution. */
  lemma ExhaustedCandidates(g: Grid, x: nat, y: nat, candidates: seq<int>)
    requires IsShape(g) && x < 9 && y < 9 && g[y][x] == Unset
    requires forall v :: Legal(g, x, y, v) ==> v in candidates
    requires Excluded(g, x, y, candidates)
    ensures Unsolvable(g)
  {
    forall c ensures IsSolution(c, g) ==> Legal(g, x, y, c[y][x]) {
      SolutionDigitIsLegal(c, g, x, y);
    }
  }

  /** A grid completed from g with a legal digit written at an empty cell keeps the
      digits of g and, when g was valid, solves it. */
  lemma SolvedAfterPlace(g: Grid, x: nat, y: nat, v: int, r: Grid)
    requires IsShape(g) && x < 9 && y < 9 && g[y][x] == Unset && Legal(g, x, y, v)
    requires WellFormed(r) && Complete(r) && Extends(r, Place(g, y, x, v))
    requires PuzzleValid(Place(g, y, x, v)) ==> PuzzleValid(r)
    ensures Extends(r, g)
    ensures PuzzleValid(g) ==> IsSolution(r, g)
  {
    if PuzzleValid(g) {
      PlacePreservesValid(g, y, x, v);
    }
  }

  /** Extending a prefix by one element, kept as a separate step so that the search
      loop's proof stays small. */
  lemma PrefixStep(s: seq<int>, i: nat)
    requires i < |s|
    ensures s[..i + 1] == s[..i] + [s[i]]
  {
  }

  /** Writing 0 into an empty cell changes nothing. */
  lemma PlaceUnset(g: Grid, y: nat, x: nat)
    requires IsShape(g) && x < 9 && y < 9 && g[y][x] == Unset
    ensures Place(g, y, x, Unset) == g
  {
    assert g[y][x := Unset] == g[y];
  }

  /** The search. Returns the number of invocations it made (itself included), which
      the caller adds to its cycle counter. */
  method Solve(a: array2<int>) returns (cycles: nat)
    requires IsGridArray(a)
    modifies a
    ensures IsGridArray(a)
    ensures cycles >= 1
    ensures Complete(old(Cells(a))) ==> Cells(a) == old(Cells(a)) && cycles == 1
    ensures Complete(Cells(a)) ==> Extends(Cells(a), old(Cells(a)))
    ensures Complete(Cells(a)) && PuzzleValid(old(Cells(a))) ==> IsSolution(Cells(a), old(Cells(a)))
    ensures !Complete(Cells(a)) ==> Cells(a) == old(Cells(a)) && Unsolvable(old(Cells(a)))
    decreases |EmptySquares(Cells(a))|
  {
    ghost var g := Cells(a);
    cycles := 1;
    var firstEmptySquare := FindCoordinatesOfFirstEmptySquare(a);
    if firstEmptySquare.None? {
      return;
    }
    var firstEmptyX: nat, firstEmptyY: nat := firstEmptySquare.value.x, firstEmptySquare.value.y;
    var legalValues := LegalValues(a, firstEmptyX, firstEmptyY);
    PlaceUnset(g, firstEmptyY, firstEmptyX);
    var i := 0;
    while i < |legalValues|
      invariant 0 <= i <= |legalValues|
      invariant IsGridArray(a)
      invariant Cells(a) == Place(g, firstEmptyY, firstEmptyX, a[firstEmptyY, firstEmptyX])
      invariant Excluded(g, firstEmptyX, firstEmptyY, legalValues[..i])
      invariant cycles >= 1
    {
      var legalValue := legalValues[i];
      assert legalValue in legalValues;
      a[firstEmptyY, firstEmptyX] := legalValue;
      CellsEqual(a, Place(g, firstEmptyY, firstEmptyX, legalValue));
      PlaceFillsOneSquare(g, firstEmptyY, firstEmptyX, legalValue);
      var subCycles := Solve(a);
      cycles := cycles + subCycles;
      var solved := IsComplete(a);
      if solved {
        SolvedAfterPlace(g, firstEmptyX, firstEmptyY, legalValue, Cells(a));
        return;
      }
      FailedCandidate(g, firstEmptyX, firstEmptyY, legalValues[..i], legalValue);
      PrefixStep(legalValues, i);
      i := i + 1;
    }
    a[firstEmptyY, firstEmptyX] := Unset;
    CellsEqual(a, g);
    assert legalValues[..i] == legalValues;
    ExhaustedCandidates(g, firstEmptyX, firstEmptyY, legalValues);
  }
}
