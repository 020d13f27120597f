/** The text side of the solver: reading a puzzle from a string (dots or zeros for
    empty cells, any other non-digit ignored) and rendering a grid as nine lines of
    digits with `|` between region columns and a dashed line between region rows. */
module PuzzleText {
  import opened Grid

  datatype Result<T> = Ok(value: T) | Err(message: string)

  const UnsetValueString := "."
  const BoxHorizontalDivider := "------+-------+-------"
  const WrongSizeMessage := "Puzzle should contain exactly 81 values"

  predicate IsDigit(ch: char) {
    '0' <= ch <= '9'
  }

  /** Every character is a decimal digit. */
  predicate AllDigits(s: string) {
    forall i :: 0 <= i < |s| ==> IsDigit(s[i])
  }

  /** The character of a decimal digit. */
  function DigitChar(d: int): (ch: char)
    requires 0 <= d <= 9
    ensures IsDigit(ch) && ch as int - '0' as int == d
  {
    ('0' as int + d) as char
  }

  /** The value of a decimal digit character. */
  function DigitValue(ch: char): (d: int)
    requires IsDigit(ch)
    ensures 0 <= d <= 9 && DigitChar(d) == ch
  {
    ch as int - '0' as int
  }

  // ---------------------------------------------------------------- decoding

  /** Every `.` replaced by `0`. */
  function DotsToZeros(s: string): (r: string)
    ensures |r| == |s| && '.' !in r
    ensures forall i :: 0 <= i < |s| && s[i] != '.' ==> r[i] == s[i]
    ensures forall i :: 0 <= i < |s| ==> (IsDigit(r[i]) <==> IsDigit(s[i]) || s[i] == '.')
  {
    seq(|s|, i requires 0 <= i < |s| => if s[i] == '.' then '0' else s[i])
  }

  /** The digits of s, in order; everything else is dropped. */
  function KeepDigits(s: string): (r: string)
    ensures |r| <= |s|
    ensures AllDigits(r)
    ensures AllDigits(s) ==> r == s
    ensures (forall i :: 0 <= i < |s| ==> !IsDigit(s[i])) ==> r == []
  {
    if |s| == 0 then []
    else KeepDigits(s[..|s| - 1]) + (if IsDigit(s[|s| - 1]) then [s[|s| - 1]] else [])
  }

  lemma {:induction false} KeepDigitsAppend(s: string, t: string)
    ensures KeepDigits(s + t) == KeepDigits(s) + KeepDigits(t)
    decreases |t|
  {
    if |t| == 0 {
      assert s + t == s;
    } else {
      var t' := t[..|t| - 1];
      assert (s + t)[..|s + t| - 1] == s + t';
      KeepDigitsAppend(s, t');
    }
  }

  /** The two rewrites the decoder applies before splitting: dots become zeros, then
      every character that is not a digit is removed. */
  function Normalize(s: string): string {
    KeepDigits(DotsToZeros(s))
  }

  /** What survives the rewrites: digits only, in order; a text of digits is kept as is,
      a text with neither digits nor dots vanishes, and a dot is read as `0`. Together
      with NormalizeAppend this fixes the rewrites on every text, one character at a
      time. */
  lemma NormalizeKeepsDigits(s: string)
    ensures |Normalize(s)| <= |s|
    ensures AllDigits(Normalize(s))
    ensures AllDigits(s) ==> Normalize(s) == s
    ensures (forall i :: 0 <= i < |s| ==> !IsDigit(s[i]) && s[i] != '.') ==> Normalize(s) == []
    ensures Normalize(".") == "0"
  {
    assert DotsToZeros(".") == "0";
    var d := DotsToZeros(s);
    if AllDigits(s) {
      assert forall i :: 0 <= i < |s| ==> d[i] == s[i];
      assert d == s;
    }
    if forall i :: 0 <= i < |s| ==> !IsDigit(s[i]) && s[i] != '.' {
      assert forall i :: 0 <= i < |d| ==> !IsDigit(d[i]);
    }
  }

  lemma DotsToZerosAppend(s: string, t: string)
    ensures DotsToZeros(s + t) == DotsToZeros(s) + DotsToZeros(t)
  {
  }

  lemma NormalizeAppend(s: string, t: string)
    ensures Normalize(s + t) == Normalize(s) + Normalize(t)
  {
    DotsToZerosAppend(s, t);
    KeepDigitsAppend(DotsToZeros(s), DotsToZeros(t));
  }

  /** Splitting a string between every two characters, as `split("")` does: one
      one-character piece per character, and a single empty piece for the empty
      string. */
  function SplitEachChar(s: string): seq<string> {
    if s == [] then [""] else seq(|s|, i requires 0 <= i < |s| => [s[i]])
  }

  /** The pieces written one after the other. */
  function Concat(pieces: seq<string>): string {
    if |pieces| == 0 then "" else Concat(pieces[..|pieces| - 1]) + pieces[|pieces| - 1]
  }

  /** Splitting loses nothing: the pieces join back to the string; a nonempty string
      gives exactly one piece per character, each one character long, and the empty
      string gives the single empty piece. */
  lemma SplitEachCharJoins(s: string)
    ensures Concat(SplitEachChar(s)) == s
    ensures s == [] ==> |SplitEachChar(s)| == 1
    ensures s != [] ==> |SplitEachChar(s)| == |s|
    ensures forall i :: 0 <= i < |SplitEachChar(s)| ==> |SplitEachChar(s)[i]| <= 1
    ensures s != [] ==> forall i :: 0 <= i < |SplitEachChar(s)| ==> |SplitEachChar(s)[i]| == 1
  {
    if s == [] {
      assert Concat([""]) == Concat([]) + "";
    } else {
      ConcatPrefix(s, |s|);
      assert SplitEachChar(s)[..|s|] == SplitEachChar(s);
    }
  }

  lemma {:induction false} ConcatPrefix(s: string, n: nat)
    requires s != [] && n <= |s|
    ensures Concat(SplitEachChar(s)[..n]) == s[..n]
  {
    if n > 0 {
      var p := SplitEachChar(s);
      assert p[..n][..n - 1] == p[..n - 1];
      ConcatPrefix(s, n - 1);
      assert s[..n] == s[..n - 1] + [s[n - 1]];
    }
  }

  /** The pieces the decoder reads the 81 cell values from. */
  function Pieces(s: string): (pieces: seq<string>)
    ensures forall i :: 0 <= i < |pieces| ==> |pieces[i]| <= 1
    ensures |pieces| == ExpectedSquares ==> forall i :: 0 <= i < |pieces| ==> |pieces[i]| == 1 && AllDigits(pieces[i])
  {
    SplitEachChar(Normalize(s))
  }

  /** The 81 one-digit pieces laid out row by row. */
  function FillGrid(pieces: seq<string>): (g: Grid)
    requires |pieces| == ExpectedSquares
    requires forall i :: 0 <= i < |pieces| ==> |pieces[i]| == 1 && IsDigit(pieces[i][0])
    ensures WellFormed(g)
  {
    var g := seq(9, y requires 0 <= y < 9 => seq(9, x requires 0 <= x < 9 => DigitValue(pieces[9 * y + x][0])));
    assert forall y, x :: 0 <= y < 9 && 0 <= x < 9 ==> g[y][x] == DigitValue(pieces[9 * y + x][0]);
    g
  }

  /** The grid a puzzle string describes, read row by row, or the error the decoder
      raises when the string does not hold exactly 81 values. */
  function Decode(s: string): (r: Result<Grid>)
    ensures r.Err? <==> |Normalize(s)| != ExpectedSquares
    ensures r.Err? ==> r.message == WrongSizeMessage
    ensures r.Ok? ==> WellFormed(r.value)
    ensures r.Ok? ==> forall y, x :: 0 <= y < 9 && 0 <= x < 9 ==>
                        IsDigit(Normalize(s)[9 * y + x]) && r.value[y][x] == DigitValue(Normalize(s)[9 * y + x])
  {
    var pieces := Pieces(s);
    if |pieces| != ExpectedSquares then Err(WrongSizeMessage) else Ok(FillGrid(pieces))
  }

  /** A puzzle is read only through its digits and dots: any decoration between them
      (spaces, bars, line breaks, dashes) leaves the decoded grid unchanged, and so does
      writing `0` for `.`. */
  lemma DecodeSeesOnlyNormalized(s: string)
    ensures Decode(s) == Decode(Normalize(s))
  {
    var n := Normalize(s);
    assert AllDigits(n);
    assert DotsToZeros(n) == n;
    assert Normalize(n) == n;
  }

  /** The decoder: a fresh 9x9 array holding the decoded grid, or the error. */
  method DecodePuzzle(puzzle: string) returns (r: Result<array2<int>>)
    ensures r.Err? <==> Decode(puzzle).Err?
    ensures r.Err? ==> r.message == WrongSizeMessage
    ensures r.Ok? ==> fresh(r.value) && IsGridArray(r.value) && Cells(r.value) == Decode(puzzle).value
  {
    var strings := SplitEachChar(KeepDigits(DotsToZeros(puzzle)));
    if |strings| != ExpectedSquares {
      return Err(WrongSizeMessage);
    }
    assert strings == Pieces(puzzle);
    var decodedPuzzle := FillRows(strings);
    return Ok(decodedPuzzle);
  }

  /** The decoder's fill loop: the 81 one-digit pieces written row by row into a fresh
      array. */
  method FillRows(strings: seq<string>) returns (decodedPuzzle: array2<int>)
    requires |strings| == ExpectedSquares
    requires forall i :: 0 <= i < |strings| ==> |strings[i]| == 1 && IsDigit(strings[i][0])
    ensures fresh(decodedPuzzle) && IsGridArray(decodedPuzzle)
    ensures Cells(decodedPuzzle) == FillGrid(strings)
  {
    decodedPuzzle := new int[Size, Size];
    var next := 0;
    var y := 0;
    while y < Size
      invariant 0 <= y <= 9 && next == 9 * y
      invariant forall j, i :: 0 <= j < y && 0 <= i < 9 ==> decodedPuzzle[j, i] == DigitValue(strings[9 * j + i][0])
    {
      var x := 0;
      while x < Size
        invariant 0 <= x <= 9 && next == 9 * y + x
        invariant forall j, i :: 0 <= j < y && 0 <= i < 9 ==> decodedPuzzle[j, i] == DigitValue(strings[9 * j + i][0])
        invariant forall i :: 0 <= i < x ==> decodedPuzzle[y, i] == DigitValue(strings[9 * y + i][0])
      {
        decodedPuzzle[y, x] := DigitValue(strings[next][0]);
        next := next + 1;
        x := x + 1;
      }
      y := y + 1;
    }
    CellsEqual(decodedPuzzle, FillGrid(strings));
  }

  // ---------------------------------------------------------------- rendering

  /** Decimal text of a natural number, most significant digit first. */
  function NatText(n: nat): string {
    if n < 10 then [DigitChar(n)] else NatText(n / 10) + [DigitChar(n % 10)]
  }

  /** The number a string of decimal digits denotes. */
  function NatValue(s: string): nat
    requires AllDigits(s)
  {
    if |s| == 0 then 0 else NatValue(s[..|s| - 1]) * 10 + DigitValue(s[|s| - 1])
  }

  /** Decimal text is a nonempty string of digits, one digit exactly for numbers below
      ten, and it reads back as the number it was written from. */
  lemma {:induction false} NatTextRoundTrip(n: nat)
    ensures |NatText(n)| >= 1 && AllDigits(NatText(n))
    ensures n < 10 <==> |NatText(n)| == 1
    ensures NatValue(NatText(n)) == n
  {
    if n >= 10 {
      var s := NatText(n);
      NatTextRoundTrip(n / 10);
      assert s[..|s| - 1] == NatText(n / 10);
    }
  }

  /** Decimal text of an integer, as appending an `int` to a string builder gives. */
  function DecimalText(n: int): string {
    if n < 0 then "-" + NatText(-n) else NatText(n)
  }

  /** The text of an integer is its digits, after a minus sign when it is negative. */
  lemma DecimalTextRoundTrip(n: int)
    ensures n >= 0 ==> AllDigits(DecimalText(n)) && NatValue(DecimalText(n)) == n
    ensures n < 0 ==> |DecimalText(n)| >= 2 && DecimalText(n)[0] == '-' &&
                      AllDigits(DecimalText(n)[1..]) && NatValue(DecimalText(n)[1..]) == -n
  {
    if n < 0 {
      NatTextRoundTrip(-n);
      assert DecimalText(n)[1..] == NatText(-n);
    } else {
      NatTextRoundTrip(n);
    }
  }

  /** A cell as rendered: `.` when empty, its number otherwise. */
  function CellText(value: int): string {
    if value == Unset then UnsetValueString else DecimalText(value)
  }

  /** Cell x of a row: its text and a space, then `| ` after the third and the sixth. */
  function CellPiece(value: int, x: int): string {
    if x == 2 || x == 5 then CellText(value) + " " + "| " else CellText(value) + " "
  }

  /** The first n cells of a row. */
  function RowText(row: seq<int>, n: nat): string
    requires n <= |row|
  {
    if n == 0 then "" else RowText(row, n - 1) + CellPiece(row[n - 1], n - 1)
  }

  /** Row y: its cells and a line break, then the divider line after the third and the
      sixth. */
  function LinePiece(row: seq<int>, y: int): string {
    if y == 2 || y == 5 then RowText(row, |row|) + "\n" + (BoxHorizontalDivider + "\n") else RowText(row, |row|) + "\n"
  }

  /** The first n rows. */
  function GridText(g: Grid, n: nat): string
    requires n <= |g|
  {
    if n == 0 then "" else GridText(g, n - 1) + LinePiece(g[n - 1], n - 1)
  }

  function PrettyString(g: Grid): string {
    GridText(g, |g|)
  }

  /** The renderer: builds the text of the grid row by row, cell by cell. */
  method PuzzleToPrettyString(puzzle: array2<int>) returns (s: string)
    requires puzzle.Length0 == 9 && puzzle.Length1 == 9
    ensures s == PrettyString(Cells(puzzle))
  {
    ghost var g := Cells(puzzle);
    var sb := "";
    var y := 0;
    while y < puzzle.Length0
      invariant 0 <= y <= 9
      invariant sb == GridText(g, y)
    {
      ghost var prefix := sb;
      var x := 0;
      while x < puzzle.Length1
        invariant 0 <= x <= 9
        invariant sb == prefix + RowText(g[y], x)
      {
        var value := puzzle[y, x];
        assert value == g[y][x];
        ghost var before := sb;
        if value == Unset {
          sb := sb + UnsetValueString;
        } else {
          sb := sb + DecimalText(value);
        }
        sb := sb + " ";
        if x == 2 || x == 5 {
          sb := sb + "| ";
        }
        x := x + 1;
        CellAppended(prefix, g[y], x, before, sb);
      }
      ghost var before := sb;
      sb := sb + "\n";
      if y == 2 || y == 5 {
        sb := sb + BoxHorizontalDivider + "\n";
      }
      y := y + 1;
      LineAppended(g, y, before, sb);
    }
    s := sb;
  }

  /** One cell's appends extend the text by that cell's piece. */
  lemma CellAppended(prefix: string, row: seq<int>, n: nat, before: string, after: string)
    requires 0 < n <= |row| && before == prefix + RowText(row, n - 1)
    requires n - 1 == 2 || n - 1 == 5 ==> after == before + CellText(row[n - 1]) + " " + "| "
    requires n - 1 != 2 && n - 1 != 5 ==> after == before + CellText(row[n - 1]) + " "
    ensures after == prefix + RowText(row, n)
  {
    var x := n - 1;
    var cell := CellText(row[x]);
    if x == 2 || x == 5 {
      Assoc4(before, cell, " ", "| ");
    } else {
      Assoc3(before, cell, " ");
    }
    Assoc3(prefix, RowText(row, x), CellPiece(row[x], x));
  }

  /** One row's closing appends extend the text by that row's line. */
  lemma LineAppended(g: Grid, n: nat, before: string, after: string)
    requires 0 < n <= |g| && before == GridText(g, n - 1) + RowText(g[n - 1], |g[n - 1]|)
    requires n - 1 == 2 || n - 1 == 5 ==> after == before + "\n" + (BoxHorizontalDivider + "\n")
    requires n - 1 != 2 && n - 1 != 5 ==> after == before + "\n"
    ensures after == GridText(g, n)
  {
    var y := n - 1;
    var row := RowText(g[y], |g[y]|);
    if y == 2 || y == 5 {
      Assoc4(GridText(g, y), row, "\n", BoxHorizontalDivider + "\n");
    } else {
      Assoc3(GridText(g, y), row, "\n");
    }
  }

  /** String concatenation regrouped, as one step the solver does not take unaided
      inside the larger proofs above. */
  lemma Assoc3(a: string, b: string, c: string)
    ensures (a + b) + c == a + (b + c)
  {
  }

  lemma Assoc4(a: string, b: string, c: string, d: string)
    ensures ((a + b) + c) + d == a + ((b + c) + d)
  {
  }

  // ---------------------------------------------------------------- round trip

  /** The digits a row is read back as: one per cell. */
  function RowDigits(row: seq<int>, n: nat): (d: string)
    requires n <= |row| && forall i :: 0 <= i < |row| ==> 0 <= row[i] <= 9
    ensures |d| == n
  {
    if n == 0 then [] else RowDigits(row, n - 1) + [DigitChar(row[n - 1])]
  }

  /** The digits a grid is read back as: one per cell, in row-major order. */
  function GridDigits(g: Grid, n: nat): (d: string)
    requires WellFormed(g) && n <= 9
    ensures |d| == 9 * n
  {
    if n == 0 then [] else GridDigits(g, n - 1) + RowDigits(g[n - 1], 9)
  }

  lemma {:induction false} RowDigitsAt(row: seq<int>, n: nat, i: nat)
    requires n <= |row| && forall i :: 0 <= i < |row| ==> 0 <= row[i] <= 9
    requires i < n
    ensures RowDigits(row, n)[i] == DigitChar(row[i])
  {
    if i < n - 1 {
      RowDigitsAt(row, n - 1, i);
    }
  }

  lemma {:induction false} GridDigitsAt(g: Grid, n: nat, y: nat, x: nat)
    requires WellFormed(g) && n <= 9 && y < n && x < 9
    ensures GridDigits(g, n)[9 * y + x] == DigitChar(g[y][x])
  {
    if y < n - 1 {
      GridDigitsAt(g, n - 1, y, x);
    } else {
      RowDigitsAt(g[y], 9, x);
    }
  }

  /** One-character pieces joined: piece k gives character k. */
  lemma {:induction false} ConcatSingles(p: seq<string>, n: nat)
    requires n <= |p| && forall i :: 0 <= i < |p| ==> |p[i]| == 1
    ensures |Concat(p[..n])| == n
    ensures forall k :: 0 <= k < n ==> Concat(p[..n])[k] == p[k][0]
  {
    if n > 0 {
      assert p[..n][..n - 1] == p[..n - 1];
      ConcatSingles(p, n - 1);
      assert p[n - 1] == [p[n - 1][0]];
    }
  }

  /** The fill loses nothing: reading the filled grid back row by row, one digit per
      cell, gives the pieces it was filled from. */
  lemma FillGridReadsBack(pieces: seq<string>)
    requires |pieces| == ExpectedSquares
    requires forall i :: 0 <= i < |pieces| ==> |pieces[i]| == 1 && IsDigit(pieces[i][0])
    ensures WellFormed(FillGrid(pieces))
    ensures GridDigits(FillGrid(pieces), 9) == Concat(pieces)
  {
    var g := FillGrid(pieces);
    ConcatSingles(pieces, |pieces|);
    assert pieces[..|pieces|] == pieces;
    var d := GridDigits(g, 9);
    var c := Concat(pieces);
    forall k | 0 <= k < 81 ensures d[k] == c[k] {
      var y, x := k / 9, k % 9;
      assert k == 9 * y + x;
      GridDigitsAt(g, 9, y, x);
    }
  }

  /** Text with neither a digit nor a dot: spaces, bars, line breaks, dashes. */
  predicate Decoration(s: string) {
    forall i :: 0 <= i < |s| ==> !IsDigit(s[i]) && s[i] != '.'
  }

  /** The divider line holds no digit and no dot. */
  lemma DividerLine()
    ensures Decoration(BoxHorizontalDivider + "\n")
  {
  }

  /** Decoration contributes nothing to the decoded values. */
  lemma NormalizeDecoration(s: string, t: string)
    requires Decoration(t)
    ensures Normalize(s + t) == Normalize(s)
  {
    assert DotsToZeros(t) == t;
    NormalizeAppend(s, t);
  }

  lemma NormalizeCellText(value: int)
    requires 0 <= value <= 9
    ensures Normalize(CellText(value)) == [DigitChar(value)]
  {
    if value == Unset {
      assert DotsToZeros(".") == "0";
    } else {
      assert NatText(value) == [DigitChar(value)];
      assert DotsToZeros(CellText(value)) == CellText(value);
    }
  }

  lemma NormalizeCellPiece(value: int, x: int)
    requires 0 <= value <= 9
    ensures Normalize(CellPiece(value, x)) == [DigitChar(value)]
  {
    NormalizeCellText(value);
    NormalizeDecoration(CellText(value), " ");
    if x == 2 || x == 5 {
      NormalizeDecoration(CellText(value) + " ", "| ");
    }
  }

  lemma {:induction false} NormalizeRow(row: seq<int>, n: nat)
    requires n <= |row| && forall i :: 0 <= i < |row| ==> 0 <= row[i] <= 9
    ensures Normalize(RowText(row, n)) == RowDigits(row, n)
  {
    if n > 0 {
      NormalizeRow(row, n - 1);
      NormalizeAppend(RowText(row, n - 1), CellPiece(row[n - 1], n - 1));
      NormalizeCellPiece(row[n - 1], n - 1);
    }
  }

  lemma NormalizeLine(row: seq<int>, y: int)
    requires |row| == 9 && forall i :: 0 <= i < |row| ==> 0 <= row[i] <= 9
    ensures Normalize(LinePiece(row, y)) == RowDigits(row, 9)
  {
    var text := RowText(row, |row|);
    NormalizeRow(row, |row|);
    NormalizeDecoration(text, "\n");
    if y == 2 || y == 5 {
      DividerLine();
      NormalizeDecoration(text + "\n", BoxHorizontalDivider + "\n");
    }
  }

  lemma {:induction false} NormalizeGrid(g: Grid, n: nat)
    requires WellFormed(g) && n <= 9
    ensures Normalize(GridText(g, n)) == GridDigits(g, n)
  {
    if n > 0 {
      NormalizeGrid(g, n - 1);
      NormalizeAppend(GridText(g, n - 1), LinePiece(g[n - 1], n - 1));
      NormalizeLine(g[n - 1], n - 1);
    }
  }

  /** Decoding what the renderer prints gives back the grid it rendered. */
  lemma PrettyStringRoundTrip(g: Grid)
    requires WellFormed(g)
    ensures Decode(PrettyString(g)) == Ok(g)
  {
    NormalizeGrid(g, 9);
    var digits := GridDigits(g, 9);
    assert Pieces(PrettyString(g)) == SplitEachChar(digits);
    var d := Decode(PrettyString(g));
    forall y, x | 0 <= y < 9 && 0 <= x < 9 ensures d.value[y][x] == g[y][x] {
      GridDigitsAt(g, 9, y, x);
    }
    GridsEqual(d.value, g);
  }
}
