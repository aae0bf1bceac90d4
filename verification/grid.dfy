/**
 The grid of the pixel-art widget and the two operations that build a new
 grid from an old one: `createMatriz` and the cell update of
 `handleCellClick`, both in Colorgrill.jsx.

 A cell holds either a color string exactly as the widget stores it (the
 initial white, or the active color verbatim) or the `rgba(r, g, b, 1)`
 value written to the neighbors of a painted cell, kept structurally.
 */
module Grid {
  import opened Wrappers
  import opened HexColor

  datatype Color = Hex(code: string) | Rgba(red: int, green: int, blue: int, alpha: int)

  /** Rows of cells; the source indexes it as `matriz[i][j]`. */
  type Grid = seq<seq<Color>>

  /** The color of a fresh cell. */
  const White: string := "#FFFFFF"

  /** The alpha written to neighbors. The source comment speaks of 60%
      opacity, but the literal written is 1. */
  const NeighborAlpha: int := 1

  /** `Array.from({ length: n })` treats a negative length as 0. */
  function ArrayLength(n: int): nat {
    if n < 0 then 0 else n
  }

  predicate InBounds(g: Grid, i: int, j: int) {
    0 <= i < |g| && 0 <= j < |g[i]|
  }

  /** `g` has `rows` rows, each of length `cols`. */
  predicate HasShape(g: Grid, rows: nat, cols: nat) {
    |g| == rows && forall i :: 0 <= i < |g| ==> |g[i]| == cols
  }

  /** `a` and `b` have the same number of rows and equally long rows. */
  predicate SameShape(a: Grid, b: Grid) {
    |a| == |b| && forall i :: 0 <= i < |a| ==> |a[i]| == |b[i]|
  }

  predicate AllWhite(g: Grid) {
    forall i, j :: 0 <= i < |g| && 0 <= j < |g[i]| ==> g[i][j] == Hex(White)
  }

  /** `createMatriz(rows, cols)`: `rows` rows of `cols` white cells. */
  function CreateMatriz(rows: int, cols: int): (g: Grid)
    ensures HasShape(g, ArrayLength(rows), ArrayLength(cols))
    ensures AllWhite(g)
  {
    seq(ArrayLength(rows), _ => seq(ArrayLength(cols), _ => Hex(White)))
  }

  /** A white grid of a given shape is the one `createMatriz` builds. */
  lemma CreateMatrizUnique(g: Grid, rows: nat, cols: nat)
    requires HasShape(g, rows, cols) && AllWhite(g)
    ensures g == CreateMatriz(rows, cols)
  {
    var m := CreateMatriz(rows, cols);
    forall i | 0 <= i < rows
      ensures g[i] == m[i]
    {
      assert forall j :: 0 <= j < cols ==> InBounds(g, i, j);
    }
  }

  /** Cell (i, j) is directly above, below, left or right of (row, col). */
  predicate Adjacent(i: int, j: int, row: int, col: int) {
    || (i == row - 1 && j == col)
    || (i == row + 1 && j == col)
    || (i == row && j == col - 1)
    || (i == row && j == col + 1)
  }

  /** Some cell of `g` is adjacent to (row, col), so painting there reaches
      the tint branch at least once. */
  predicate HasNeighbor(g: Grid, row: int, col: int) {
    || InBounds(g, row - 1, col)
    || InBounds(g, row + 1, col)
    || InBounds(g, row, col - 1)
    || InBounds(g, row, col + 1)
  }

  /** The value written to a neighbor of a painted cell. */
  function Tint(c: Rgb): Color {
    Rgba(c.red, c.green, c.blue, NeighborAlpha)
  }

  /** The body of the inner `map` for cell (i, j), given the tint to use. */
  function PaintedCell(cell: Color, i: int, j: int, row: int, col: int, color: string, tint: Color): Color {
    if i == row && j == col then Hex(color)
    else if Adjacent(i, j, row, col) then tint
    else cell
  }

  /** The grid update of `handleCellClick(row, col)` with active color
      `color`. The tint is computed with `hexToRgb(color)` and no null check,
      so the JavaScript throws when the color does not parse and some cell of
      the grid is a neighbor; that outcome is `None`, and the caller's grid is
      then never replaced. Out-of-range coordinates are allowed, as in the
      source: they paint nothing but may still tint in-range neighbors. */
  function Paint(g: Grid, row: int, col: int, color: string): (r: Option<Grid>)
    ensures r.None? <==> HexToRgb(color).None? && exists i, j :: InBounds(g, i, j) && Adjacent(i, j, row, col)
    ensures r.Some? ==> SameShape(r.value, g)
    ensures r.Some? && InBounds(g, row, col) ==> r.value[row][col] == Hex(color)
    ensures r.Some? ==> forall i, j :: InBounds(g, i, j) && Adjacent(i, j, row, col) ==>
      r.value[i][j] == Tint(HexToRgb(color).value)
    ensures r.Some? ==> forall i, j :: InBounds(g, i, j) && !(i == row && j == col) && !Adjacent(i, j, row, col) ==>
      r.value[i][j] == g[i][j]
  {
    var parsed := HexToRgb(color);
    if parsed.None? && HasNeighbor(g, row, col) then
      assert InBounds(g, row - 1, col) || InBounds(g, row + 1, col) || InBounds(g, row, col - 1) || InBounds(g, row, col + 1);
      None
    else
      // When the color does not parse, no cell reaches the tint branch, so
      // the tint value is never observed.
      var tint := if parsed.Some? then Tint(parsed.value) else Hex(color);
      Some(seq(|g|, i requires 0 <= i < |g| =>
        seq(|g[i]|, j requires 0 <= j < |g[i]| => PaintedCell(g[i][j], i, j, row, col, color, tint))))
  }

  /** A value a cell can hold: a color string that parses, or a neighbor
      tint made of three bytes and the literal alpha. */
  predicate ValidCell(c: Color) {
    match c
    case Hex(code) => HexToRgb(code).Some?
    case Rgba(r, g, b, a) => InByteRange(Rgb(r, g, b)) && a == NeighborAlpha
  }

  predicate ValidGrid(g: Grid) {
    forall i, j :: 0 <= i < |g| && 0 <= j < |g[i]| ==> ValidCell(g[i][j])
  }

  /** White parses, so a fresh grid holds only valid cells. */
  lemma CreateMatrizValid(rows: int, cols: int)
    ensures HexToRgb(White) == Some(Rgb(255, 255, 255))
    ensures ValidGrid(CreateMatriz(rows, cols))
  {
    assert StripHash(White) == "FFFFFF";
    assert IsFullForm(White);
  }

  /** On a grid of at least two rows every in-range target has a neighbor, so
      a paint that succeeds used a color that parses, and the grid keeps
      holding only valid cells. */
  lemma PaintKeepsValidGrid(g: Grid, row: int, col: int, color: string, rows: nat, cols: nat)
    requires rows >= 2 && HasShape(g, rows, cols) && ValidGrid(g)
    requires Paint(g, row, col, color).Some?
    ensures ValidGrid(Paint(g, row, col, color).value)
  {
    var r := Paint(g, row, col, color).value;
    forall i, j | 0 <= i < |r| && 0 <= j < |r[i]|
      ensures ValidCell(r[i][j])
    {
      assert InBounds(g, i, j);
      if i == row && j == col {
        if i + 1 < rows {
          assert InBounds(g, i + 1, j) && Adjacent(i + 1, j, row, col);
        } else {
          assert InBounds(g, i - 1, j) && Adjacent(i - 1, j, row, col);
        }
      }
    }
  }

  /** Painting the same cell twice with the same color is painting it once. */
  lemma PaintIdempotent(g: Grid, row: int, col: int, color: string)
    requires Paint(g, row, col, color).Some?
    ensures Paint(Paint(g, row, col, color).value, row, col, color) == Paint(g, row, col, color)
  {
    var g1 := Paint(g, row, col, color).value;
    if HexToRgb(color).None? {
      assert !exists i, j :: InBounds(g1, i, j) && Adjacent(i, j, row, col) by {
        forall i, j | InBounds(g1, i, j) ensures !Adjacent(i, j, row, col) {
          assert InBounds(g, i, j);
        }
      }
    }
    var g2 := Paint(g1, row, col, color).value;
    forall i | 0 <= i < |g|
      ensures g2[i] == g1[i]
    {
      forall j | 0 <= j < |g[i]|
        ensures g2[i][j] == g1[i][j]
      {
        assert InBounds(g, i, j) && InBounds(g1, i, j);
      }
    }
    assert g2 == g1;
  }

  /** Painting the top-left corner of a grid of at least two rows and two
      columns changes exactly (0, 0), (0, 1) and (1, 0): the neighbors above
      and to the left lie outside the grid and are clipped. */
  lemma PaintCornerClipped(g: Grid, rows: nat, cols: nat, color: string)
    requires rows >= 2 && cols >= 2 && HasShape(g, rows, cols)
    requires HexToRgb(color).Some?
    ensures Paint(g, 0, 0, color).Some?
    ensures Paint(g, 0, 0, color).value[0][0] == Hex(color)
    ensures Paint(g, 0, 0, color).value[0][1] == Tint(HexToRgb(color).value)
    ensures Paint(g, 0, 0, color).value[1][0] == Tint(HexToRgb(color).value)
    ensures forall i, j :: 0 <= i < rows && 0 <= j < cols && i + j >= 2 ==>
      Paint(g, 0, 0, color).value[i][j] == g[i][j]
  {
    var r := Paint(g, 0, 0, color).value;
    assert InBounds(g, 0, 1) && InBounds(g, 1, 0) && Adjacent(0, 1, 0, 0) && Adjacent(1, 0, 0, 0);
    forall i, j | 0 <= i < rows && 0 <= j < cols && i + j >= 2
      ensures r[i][j] == g[i][j]
    {
      assert InBounds(g, i, j) && !Adjacent(i, j, 0, 0);
    }
  }

  /** Painting two cells that are not neighbors, with the same color, gives
      the same grid in either order. */
  lemma PaintsCommute(g: Grid, r1: int, c1: int, r2: int, c2: int, color: string)
    requires HexToRgb(color).Some?
    requires !(r1 == r2 && c1 == c2) && !Adjacent(r1, c1, r2, c2)
    ensures Paint(Paint(g, r1, c1, color).value, r2, c2, color)
         == Paint(Paint(g, r2, c2, color).value, r1, c1, color)
  {
    var a := Paint(Paint(g, r1, c1, color).value, r2, c2, color).value;
    var b := Paint(Paint(g, r2, c2, color).value, r1, c1, color).value;
    var a1 := Paint(g, r1, c1, color).value;
    var b1 := Paint(g, r2, c2, color).value;
    forall i | 0 <= i < |g|
      ensures a[i] == b[i]
    {
      forall j | 0 <= j < |g[i]|
        ensures a[i][j] == b[i][j]
      {
        assert InBounds(g, i, j) && InBounds(a1, i, j) && InBounds(b1, i, j);
      }
    }
    assert a == b;
  }
}
