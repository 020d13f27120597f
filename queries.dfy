/** The constraint queries the solver asks of a grid held in an array: the first empty
    cell, per-unit digit counts, the validity checks and the allowed digits of a cell.
    Each method is proved against the value-level vocabulary of module Grid. */
module Queries {
  import opened Grid

  // ---------------------------------------------------------------- completeness

  /** The first empty cell in row-major order (rows top to bottom, columns left to
      right), or None when no cell is empty. */
  method FindCoordinatesOfFirstEmptySquare(a: array2<int>) returns (r: Option<Square>)
    requires a.Length0 == 9 && a.Length1 == 9
    ensures r.None? <==> Complete(Cells(a))
    ensures r.Some? ==> 0 <= r.value.x < 9 && 0 <= r.value.y < 9 && a[r.value.y, r.value.x] == Unset
    ensures r.Some? ==>
              forall y, x :: 0 <= y < 9 && 0 <= x < 9 && (y < r.value.y || (y == r.value.y && x < r.value.x)) ==>
                a[y, x] != Unset
  {
    var y := 0;
    while y < a.Length0
      invariant 0 <= y <= 9
      invariant forall yy, xx :: 0 <= yy < y && 0 <= xx < 9 ==> a[yy, xx] != Unset
    {
      var x := 0;
      while x < a.Length1
        invariant 0 <= x <= 9
        invariant forall xx :: 0 <= xx < x ==> a[y, xx] != Unset
      {
        if a[y, x] == Unset {
          return Some(Square(x, y));
        }
        x := x + 1;
      }
      y := y + 1;
    }
    return None;
  }

  method IsComplete(a: array2<int>) returns (complete: bool)
    requires a.Length0 == 9 && a.Length1 == 9
    ensures complete <==> Complete(Cells(a))
  {
    var first := FindCoordinatesOfFirstEmptySquare(a);
    complete := first.None?;
  }

  // ---------------------------------------------------------------- count vectors

  /** Counting one more entry of s. */
  lemma CountStep(s: seq<int>, k: nat)
    requires k < |s|
    ensures forall v :: Count(s[..k + 1], v) == Count(s[..k], v) + (if s[k] == v then 1 else 0)
  {
    assert s[..k + 1][..k] == s[..k];
  }

  /** The count vector of row y: entry v (1..9) is the number of cells of the row that
      hold v; empty cells are not counted, so entry 0 stays 0. */
  method ValueCountsForRow(a: array2<int>, y: nat) returns (valueCounts: seq<int>)
    requires IsGridArray(a) && y < 9
    ensures |valueCounts| == ValueCountSize && valueCounts[0] == 0
    ensures forall v :: 1 <= v <= 9 ==> valueCounts[v] == Count(Row(Cells(a), y), v)
  {
    ghost var row := Row(Cells(a), y);
    var counts := new int[ValueCountSize](_ => 0);
    var x := 0;
    while x < a.Length1
      invariant 0 <= x <= 9
      invariant counts[0] == 0
      invariant forall v :: 1 <= v <= 9 ==> counts[v] == Count(row[..x], v)
    {
      var value := a[y, x];
      CountStep(row, x);
      if value != Unset {
        counts[value] := counts[value] + 1;
      }
      x := x + 1;
    }
    assert row[..9] == row;
    valueCounts := counts[..];
  }

  /** The count vector of column x. */
  method ValueCountsForColumn(a: array2<int>, x: nat) returns (valueCounts: seq<int>)
    requires IsGridArray(a) && x < 9
    ensures |valueCounts| == ValueCountSize && valueCounts[0] == 0
    ensures forall v :: 1 <= v <= 9 ==> valueCounts[v] == Count(Column(Cells(a), x), v)
  {
    ghost var column := Column(Cells(a), x);
    var counts := new int[ValueCountSize](_ => 0);
    var y := 0;
    while y < a.Length0
      invariant 0 <= y <= 9
      invariant counts[0] == 0
      invariant forall v :: 1 <= v <= 9 ==> counts[v] == Count(column[..y], v)
    {
      var value := a[y, x];
      CountStep(column, y);
      if value != Unset {
        counts[value] := counts[value] + 1;
      }
      y := y + 1;
    }
    assert column[..9] == column;
    valueCounts := counts[..];
  }

  /** The count vector of the region holding column x, row y; any cell of the region
      may be given, it is first moved to the region's corner. */
  method ValueCountsForRegion(a: array2<int>, regionStartX: nat, regionStartY: nat) returns (valueCounts: seq<int>)
    requires IsGridArray(a) && regionStartX < 9 && regionStartY < 9
    ensures |valueCounts| == ValueCountSize && valueCounts[0] == 0
    ensures forall v :: 1 <= v <= 9 ==>
              valueCounts[v] == Count(Region(Cells(a), RegionStart(regionStartX, regionStartY)), v)
  {
    var corner := RegionStart(regionStartX, regionStartY);
    ghost var g := Cells(a);
    ghost var region := Region(g, corner);
    ghost var seen: seq<int> := [];
    var counts := new int[ValueCountSize](_ => 0);
    var y := 0;
    while y < RegionSize
      invariant 0 <= y <= 3
      invariant seen == region[..3 * y]
      invariant counts[0] == 0
      invariant forall v :: 1 <= v <= 9 ==> counts[v] == Count(seen, v)
    {
      var x := 0;
      while x < RegionSize
        invariant 0 <= x <= 3
        invariant seen == region[..3 * y + x]
        invariant counts[0] == 0
        invariant forall v :: 1 <= v <= 9 ==> counts[v] == Count(seen, v)
      {
        var value := a[corner.y + y, corner.x + x];
        RegionPrefixStep(g, corner, y, x);
        assert (seen + [value])[..|seen|] == seen;
        seen := seen + [value];
        if value != Unset {
          counts[value] := counts[value] + 1;
        }
        x := x + 1;
      }
      y := y + 1;
    }
    assert seen == region;
    valueCounts := counts[..];
  }

  /** Every entry of the unit is 0 or a digit. */
  predicate Digits(u: seq<int>) {
    forall i :: 0 <= i < |u| ==> 0 <= u[i] <= 9
  }

  lemma UnitsOfWellFormed(g: Grid)
    requires WellFormed(g)
    ensures forall y :: 0 <= y < 9 ==> Digits(Row(g, y))
    ensures forall x :: 0 <= x < 9 ==> Digits(Column(g, x))
    ensures forall c :: IsCorner(c) ==> Digits(Region(g, c))
  {
  }

  /** A unit is free of repeated digits exactly when no digit 1..9 occurs in it twice. */
  lemma {:induction false} NoRepeatsIffCountsAtMostOne(u: seq<int>)
    requires Digits(u)
    ensures NoRepeats(u) <==> forall v :: 1 <= v <= 9 ==> Count(u, v) <= 1
  {
    if |u| > 0 {
      var p, z := u[..|u| - 1], u[|u| - 1];
      assert Digits(p);
      NoRepeatsIffCountsAtMostOne(p);
      if NoRepeats(u) {
        assert NoRepeats(p) by {
          forall i, j | 0 <= i < j < |p| && p[i] != 0 ensures p[i] != p[j] {
            assert u[i] == p[i] && u[j] == p[j];
          }
        }
        forall v | 1 <= v <= 9 ensures Count(u, v) <= 1 {
          assert Count(u, v) == Count(p, v) + (if z == v then 1 else 0);
          if v == z {
            assert v !in p by {
              forall i | 0 <= i < |p| ensures p[i] != z {
                assert u[i] == p[i];
              }
            }
          } else {
            assert Count(p, v) <= 1;
          }
        }
      } else {
        var i, j :| 0 <= i < j < |u| && u[i] != 0 && u[i] == u[j];
        if j < |p| {
          assert p[i] == u[i] && p[j] == u[j];
          assert !NoRepeats(p);
          var v :| 1 <= v <= 9 && Count(p, v) > 1;
          assert Count(u, v) == Count(p, v) + (if z == v then 1 else 0);
          assert !(forall w :: 1 <= w <= 9 ==> Count(u, w) <= 1);
        } else {
          assert p[i] == z && z in p;
          assert Count(u, z) == Count(p, z) + 1;
          assert 1 <= z <= 9 && Count(u, z) > 1;
        }
      }
    }
  }

  /** The count-vector test of the source decides the absence of repeated digits. */
  lemma CountsDecideNoRepeats(valueCounts: seq<int>, u: seq<int>)
    requires Digits(u)
    requires |valueCounts| == ValueCountSize && valueCounts[0] == 0
    requires forall v :: 1 <= v <= 9 ==> valueCounts[v] == Count(u, v)
    ensures (forall v :: 0 <= v < |valueCounts| ==> valueCounts[v] <= 1) <==> NoRepeats(u)
  {
    NoRepeatsIffCountsAtMostOne(u);
    if NoRepeats(u) {
      forall v | 0 <= v < |valueCounts| ensures valueCounts[v] <= 1 {
        if v > 0 {
          assert Count(u, v) <= 1;
        }
      }
    } else {
      var v :| 1 <= v <= 9 && Count(u, v) > 1;
      assert valueCounts[v] > 1;
    }
  }

  // ---------------------------------------------------------------- validity

  /** No count exceeds 1. */
  method IsUnitValid(valueCounts: seq<int>) returns (valid: bool)
    ensures valid <==> forall v :: 0 <= v < |valueCounts| ==> valueCounts[v] <= 1
  {
    var i := 0;
    while i < |valueCounts|
      invariant 0 <= i <= |valueCounts|
      invariant forall v :: 0 <= v < i ==> valueCounts[v] <= 1
    {
      if valueCounts[i] > 1 {
        return false;
      }
      i := i + 1;
    }
    return true;
  }

  method IsRowValid(a: array2<int>, y: nat) returns (valid: bool)
    requires IsGridArray(a) && y < 9
    ensures valid <==> NoRepeats(Row(Cells(a), y))
  {
    var valueCounts := ValueCountsForRow(a, y);
    valid := IsUnitValid(valueCounts);
    UnitsOfWellFormed(Cells(a));
    CountsDecideNoRepeats(valueCounts, Row(Cells(a), y));
  }

  method IsColumnValid(a: array2<int>, columnOffset: nat) returns (valid: bool)
    requires IsGridArray(a) && columnOffset < 9
    ensures valid <==> NoRepeats(Column(Cells(a), columnOffset))
  {
    var valueCounts := ValueCountsForColumn(a, columnOffset);
    valid := IsUnitValid(valueCounts);
    UnitsOfWellFormed(Cells(a));
    CountsDecideNoRepeats(valueCounts, Column(Cells(a), columnOffset));
  }

  method IsRegionValid(a: array2<int>, columnOffset: nat, rowOffset: nat) returns (valid: bool)
    requires IsGridArray(a) && columnOffset < 9 && rowOffset < 9
    ensures valid <==> NoRepeats(Region(Cells(a), RegionStart(columnOffset, rowOffset)))
  {
    var valueCounts := ValueCountsForRegion(a, columnOffset, rowOffset);
    valid := IsUnitValid(valueCounts);
    UnitsOfWellFormed(Cells(a));
    CountsDecideNoRepeats(valueCounts, Region(Cells(a), RegionStart(columnOffset, rowOffset)));
  }

  /** Checks the row, the column and the region of every cell; the answer is whether
      the whole grid is free of repeated digits. */
  method IsPuzzleValid(a: array2<int>) returns (valid: bool)
    requires IsGridArray(a)
    ensures valid <==> PuzzleValid(Cells(a))
  {
    ghost var g := Cells(a);
    var y := 0;
    while y < Size
      invariant 0 <= y <= 9
      invariant forall yy: nat, xx: nat :: yy < y && xx < 9 ==> UnitsValidAt(g, xx, yy)
    {
      var x := 0;
      while x < Size
        invariant 0 <= x <= 9
        invariant forall yy: nat, xx: nat :: yy < y && xx < 9 ==> UnitsValidAt(g, xx, yy)
        invariant forall xx: nat :: xx < x ==> UnitsValidAt(g, xx, y)
      {
        var containingRegion := RegionStart(x, y);
        var ok := IsRowValid(a, y);
        if ok {
          ok := IsColumnValid(a, x);
        }
        if ok {
          ok := IsRegionValid(a, containingRegion.x, containingRegion.y);
        }
        assert ok <==> UnitsValidAt(g, x, y);
        if !ok {
          PuzzleValidIffUnitsValidEverywhere(g);
          return false;
        }
        x := x + 1;
      }
      y := y + 1;
    }
    PuzzleValidIffUnitsValidEverywhere(g);
    return true;
  }

  // ---------------------------------------------------------------- allowed digits

  /** Strictly ascending, hence free of duplicates. */
  predicate Ascending(s: seq<int>) {
    forall i, j :: 0 <= i < j < |s| ==> s[i] < s[j]
  }

  lemma AscendingAppend(s: seq<int>, v: int)
    requires Ascending(s)
    requires forall w :: w in s ==> w < v
    ensures Ascending(s + [v])
  {
    forall i, j | 0 <= i < j < |s| + 1 ensures (s + [v])[i] < (s + [v])[j] {
      if j == |s| {
        assert s[i] in s;
      }
    }
  }

  /** The digits whose count is 0, in ascending order (the source collects them in an
      insertion-ordered set). */
  method AllowedValuesFromValueCounts(valueCounts: seq<int>) returns (allowedValues: seq<int>)
    ensures Ascending(allowedValues)
    ensures forall v :: v in allowedValues <==> 1 <= v < |valueCounts| && valueCounts[v] == 0
  {
    allowedValues := [];
    var value := 1;
    while value < |valueCounts|
      invariant 1 <= value <= if |valueCounts| == 0 then 1 else |valueCounts|
      invariant Ascending(allowedValues)
      invariant forall w :: w in allowedValues ==> w < value
      invariant forall v :: v in allowedValues <==> 1 <= v < value && valueCounts[v] == 0
    {
      if valueCounts[value] == 0 {
        AscendingAppend(allowedValues, value);
        allowedValues := allowedValues + [value];
      }
      value := value + 1;
    }
  }

  /** The digits absent from row y, ascending. */
  method LegalRowValues(a: array2<int>, y: nat) returns (allowed: seq<int>)
    requires IsGridArray(a) && y < 9
    ensures Ascending(allowed)
    ensures forall v :: v in allowed <==> 1 <= v <= 9 && v !in Row(Cells(a), y)
  {
    var valueCounts := ValueCountsForRow(a, y);
    allowed := AllowedValuesFromValueCounts(valueCounts);
  }

  /** The digits absent from column x, ascending. */
  method LegalColumnValues(a: array2<int>, x: nat) returns (allowed: seq<int>)
    requires IsGridArray(a) && x < 9
    ensures Ascending(allowed)
    ensures forall v :: v in allowed <==> 1 <= v <= 9 && v !in Column(Cells(a), x)
  {
    var valueCounts := ValueCountsForColumn(a, x);
    allowed := AllowedValuesFromValueCounts(valueCounts);
  }

  /** The digits absent from the region holding column x, row y, ascending. */
  method LegalBoxValues(a: array2<int>, x: nat, y: nat) returns (allowed: seq<int>)
    requires IsGridArray(a) && x < 9 && y < 9
    ensures Ascending(allowed)
    ensures forall v :: v in allowed <==> 1 <= v <= 9 && v !in Region(Cells(a), RegionStart(x, y))
  {
    var valueCounts := ValueCountsForRegion(a, x, y);
    allowed := AllowedValuesFromValueCounts(valueCounts);
  }

  /** The candidate list of the search at column x, row y: the row's allowed digits, in
      their ascending order, that the column and the region allow too. */
  method LegalValues(a: array2<int>, x: nat, y: nat) returns (legalValues: seq<int>)
    requires IsGridArray(a) && x < 9 && y < 9
    ensures Ascending(legalValues)
    ensures forall v :: v in legalValues <==> Legal(Cells(a), x, y, v)
  {
    var legalRowValues := LegalRowValues(a, y);
    var legalColumnValues := LegalColumnValues(a, x);
    var legalBoxValues := LegalBoxValues(a, x, y);
    legalValues := [];
    var i := 0;
    while i < |legalRowValues|
      invariant 0 <= i <= |legalRowValues|
      invariant Ascending(legalValues)
      invariant forall w :: w in legalValues ==> w in legalRowValues[..i]
      invariant forall v :: v in legalValues <==>
                  v in legalRowValues[..i] && v in legalColumnValues && v in legalBoxValues
    {
      var value := legalRowValues[i];
      assert legalRowValues[..i + 1] == legalRowValues[..i] + [value];
      if value in legalColumnValues && value in legalBoxValues {
        forall w | w in legalValues ensures w < value {
          var k :| 0 <= k < i && legalRowValues[k] == w;
        }
        AscendingAppend(legalValues, value);
        legalValues := legalValues + [value];
      }
      i := i + 1;
    }
    assert legalRowValues[..i] == legalRowValues;
  }
}
